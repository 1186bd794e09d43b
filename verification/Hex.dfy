/** Hexadecimal digits. */
module Hex {

  function HexDigit(d: nat): (c: char)
    requires d < 16
    ensures ('0' <= c <= '9' || 'a' <= c <= 'f') && HexValue(c) == d
  {
    "0123456789abcdef"[d]
  }

  predicate IsHex(c: char)
  {
    '0' <= c <= '9' || 'a' <= c <= 'f' || 'A' <= c <= 'F'
  }

  function HexValue(c: char): (v: nat)
    requires IsHex(c)
    ensures v < 16
  {
    if c <= '9' then (c - '0') as int
    else if c <= 'F' then 10 + (c - 'A') as int
    else 10 + (c - 'a') as int
  }

  /** Sixty-four lower-case digits: how SHA-256 digests, fingerprints and ballot nonces are written. */
  predicate IsHex64(s: string)
  {
    |s| == 64 && forall i :: 0 <= i < |s| ==> '0' <= s[i] <= '9' || 'a' <= s[i] <= 'f'
  }

  type Digest = s: string | IsHex64(s) witness seq(64, i => '0')
}
