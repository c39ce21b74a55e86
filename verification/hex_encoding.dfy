/**
 * Lowercase hexadecimal encoding of a byte string, as Go's `fmt.Sprintf("%x", b)`
 * renders a `[]byte`: two digits per byte, high nibble first.
 */
module HexEncoding {
  import opened Wrappers
  import opened Bytes

  /** The characters `%x` writes: decimal digits and lowercase `a` to `f`. */
  predicate IsHexDigit(c: char) {
    '0' <= c <= '9' || 'a' <= c <= 'f'
  }

  function HexDigit(n: int): (c: char)
    requires 0 <= n < 16
    ensures IsHexDigit(c)
  {
    if n < 10 then ('0' as int + n) as char else ('a' as int + n - 10) as char
  }

  /** The value of one lowercase hex digit; anything else is not a digit. */
  function DigitValue(c: char): (r: Option<int>)
    ensures r.Some? <==> IsHexDigit(c)
    ensures r.Some? ==> 0 <= r.value < 16 && HexDigit(r.value) == c
  {
    if '0' <= c <= '9' then Some(c as int - '0' as int)
    else if 'a' <= c <= 'f' then Some(c as int - 'a' as int + 10)
    else None
  }

  function Hex(d: Bytes): (s: string)
    ensures |s| == 2 * |d|
    ensures forall i :: 0 <= i < |s| ==> IsHexDigit(s[i])
  {
    if d == [] then ""
    else [HexDigit(d[0] as int / 16), HexDigit(d[0] as int % 16)] + Hex(d[1..])
  }

  /** The inverse of `Hex`: decodes pairs of lowercase hex digits. */
  function Unhex(s: string): (r: Option<Bytes>)
    ensures r.Some? ==> 2 * |r.value| == |s|
  {
    if |s| == 0 then Some([])
    else if |s| == 1 then None
    else
      match (DigitValue(s[0]), DigitValue(s[1]), Unhex(s[2..]))
      case (Some(hi), Some(lo), Some(rest)) => Some([(hi * 16 + lo) as byte] + rest)
      case _ => None
  }

  /** Decoding the hex rendering of a digest gives the digest back. */
  lemma {:induction false} UnhexHex(d: Bytes)
    ensures Unhex(Hex(d)) == Some(d)
  {
    if d != [] {
      var b := d[0] as int;
      UnhexHex(d[1..]);
      var s := Hex(d);
      assert s[2..] == Hex(d[1..]);
      assert DigitValue(s[0]) == Some(b / 16);
      assert DigitValue(s[1]) == Some(b % 16);
      assert [(b / 16 * 16 + b % 16) as byte] + d[1..] == d;
    }
  }

  /** Distinct digests have distinct hex renderings. */
  lemma {:induction false} HexInjective(d1: Bytes, d2: Bytes)
    ensures Hex(d1) == Hex(d2) ==> d1 == d2
  {
    UnhexHex(d1);
    UnhexHex(d2);
  }
}
