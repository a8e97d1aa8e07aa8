/**
 * Base16 text as `binascii.unhexlify` reads it and `binascii.hexlify` writes it
 * (section 8 of RFC 4648): two hexadecimal digits per octet, high nibble first,
 * digits of either case accepted on input, lower case produced on output.
 */
module Hex {
  import opened Common

  /** The value of one hexadecimal digit, or None for any other character. */
  function DigitValue(c: char): (r: Option<nat>)
    ensures r.Some? ==> r.value < 16
    ensures r.Some? <==> ('0' <= c <= '9' || 'a' <= c <= 'f' || 'A' <= c <= 'F')
  {
    if '0' <= c <= '9' then Some(c as nat - '0' as nat)
    else if 'a' <= c <= 'f' then Some(c as nat - 'a' as nat + 10)
    else if 'A' <= c <= 'F' then Some(c as nat - 'A' as nat + 10)
    else None
  }

  predicate IsDigit(c: char) {
    DigitValue(c).Some?
  }

  /** The lower-case digit that `hexlify` writes for a nibble. */
  function Digit(n: nat): (c: char)
    requires n < 16
    ensures DigitValue(c) == Some(n)
  {
    if n < 10 then ('0' as int + n) as char else ('a' as int + n - 10) as char
  }

  /**
   * Decodes Base16 text. Fails (Python raises `binascii.Error` or `ValueError`)
   * on odd length, on a character that is not a hexadecimal digit, and so also
   * on any non-ASCII character.
   */
  function Unhexlify(s: string): (r: Option<Bytes>)
    ensures r.Some? ==> 2 * |r.value| == |s|
    decreases |s|
  {
    if |s| == 0 then Some([])
    else if |s| == 1 then None
    else
      match (DigitValue(s[0]), DigitValue(s[1]), Unhexlify(s[2..]))
      case (Some(hi), Some(lo), Some(rest)) => Some([(16 * hi + lo) as Byte] + rest)
      case _ => None
  }

  /** Encodes octets as lower-case Base16 text. */
  function Hexlify(b: Bytes): (s: string)
    ensures |s| == 2 * |b|
    ensures forall i :: 0 <= i < |s| ==> IsDigit(s[i])
  {
    if b == [] then []
    else [Digit(b[0] as nat / 16), Digit(b[0] as nat % 16)] + Hexlify(b[1..])
  }

  /** Decoding succeeds exactly on even-length text made only of hexadecimal digits. */
  lemma {:induction false} UnhexlifySucceedsIff(s: string)
    ensures Unhexlify(s).Some? <==> |s| % 2 == 0 && forall i :: 0 <= i < |s| ==> IsDigit(s[i])
    decreases |s|
  {
    if |s| >= 2 {
      UnhexlifySucceedsIff(s[2..]);
      assert forall i :: 2 <= i < |s| ==> s[i] == s[2..][i - 2];
    }
  }

  /** What `hexlify` writes, `unhexlify` reads back. */
  lemma {:induction false} UnhexlifyHexlify(b: Bytes)
    ensures Unhexlify(Hexlify(b)) == Some(b)
  {
    if b != [] {
      var s := Hexlify(b);
      assert s[2..] == Hexlify(b[1..]);
      UnhexlifyHexlify(b[1..]);
      assert (16 * (b[0] as nat / 16) + b[0] as nat % 16) as Byte == b[0];
      assert [b[0]] + b[1..] == b;
    }
  }

  /** Octet `i` of a successful decode is the value of the digit pair at `2 * i` and `2 * i + 1`. */
  lemma {:induction false} UnhexlifyAt(s: string, i: nat)
    requires Unhexlify(s).Some? && i < |Unhexlify(s).value|
    ensures DigitValue(s[2 * i]).Some? && DigitValue(s[2 * i + 1]).Some?
    ensures Unhexlify(s).value[i] == (16 * DigitValue(s[2 * i]).value + DigitValue(s[2 * i + 1]).value) as Byte
    decreases i
  {
    if i > 0 {
      UnhexlifyAt(s[2..], i - 1);
      assert s[2..][2 * (i - 1)] == s[2 * i];
      assert s[2..][2 * (i - 1) + 1] == s[2 * i + 1];
    }
  }
}
