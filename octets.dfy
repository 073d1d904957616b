/**
 * Bytes and their text form on the wire: Python's `bytes.hex()` (always
 * lowercase, two digits per byte, base16 as in section 8 of RFC 4648) and
 * `bytes.fromhex` (accepts either case and skips ASCII whitespace between
 * digit pairs).
 */
module Octets {
  import opened Wrappers

  type byte = b: int | 0 <= b < 256
  type Bytes = seq<byte>

  predicate IsLowerHexDigit(c: char) {
    '0' <= c <= '9' || 'a' <= c <= 'f'
  }

  predicate IsHexDigit(c: char) {
    IsLowerHexDigit(c) || 'A' <= c <= 'F'
  }

  /** The whitespace `bytes.fromhex` skips between pairs of digits. */
  predicate IsAsciiSpace(c: char) {
    c == ' ' || c == '\t' || c == '\n' || c == '\r' || c == '\U{B}' || c == '\U{C}'
  }

  function DigitValue(c: char): (v: nat)
    requires IsHexDigit(c)
    ensures v < 16
  {
    if '0' <= c <= '9' then c as int - '0' as int
    else if 'a' <= c <= 'f' then c as int - 'a' as int + 10
    else c as int - 'A' as int + 10
  }

  function LowerDigit(v: nat): (c: char)
    requires v < 16
    ensures IsLowerHexDigit(c) && DigitValue(c) == v
  {
    if v < 10 then ('0' as int + v) as char else ('a' as int + v - 10) as char
  }

  /** `bytes.hex()`. */
  function Hex(bs: Bytes): (s: string)
  {
    if bs == [] then [] else [LowerDigit(bs[0] / 16), LowerDigit(bs[0] % 16)] + Hex(bs[1..])
  }

  /** `bytes.fromhex`; `None` stands for the ValueError it raises. */
  function FromHex(s: string): (r: Option<Bytes>)
    decreases |s|
  {
    if s == [] then Some([])
    else if IsAsciiSpace(s[0]) then FromHex(s[1..])
    else if |s| >= 2 && IsHexDigit(s[0]) && IsHexDigit(s[1]) then
      match FromHex(s[2..])
      case None => None
      case Some(rest) => Some([(DigitValue(s[0]) * 16 + DigitValue(s[1])) as byte] + rest)
    else None
  }

  /** A canonical hex string: what `bytes.hex()` can produce. */
  predicate IsCanonicalHex(s: string) {
    |s| % 2 == 0 && forall i :: 0 <= i < |s| ==> IsLowerHexDigit(s[i])
  }

  /** `bytes.hex()` yields two lowercase digits per byte. */
  lemma {:induction false} HexIsCanonical(bs: Bytes)
    ensures |Hex(bs)| == 2 * |bs|
    ensures IsCanonicalHex(Hex(bs))
  {
    if bs != [] {
      HexIsCanonical(bs[1..]);
    }
  }

  /** `bytes.fromhex(b.hex()) == b` for every byte string. */
  lemma {:induction false} FromHexHex(bs: Bytes)
    ensures FromHex(Hex(bs)) == Some(bs)
  {
    if bs != [] {
      var s := Hex(bs);
      assert s[2..] == Hex(bs[1..]);
      assert IsLowerHexDigit(s[0]) && IsLowerHexDigit(s[1]);
      assert !IsAsciiSpace(s[0]) && IsHexDigit(s[0]) && IsHexDigit(s[1]);
      FromHexHex(bs[1..]);
      assert DigitValue(s[0]) == bs[0] / 16 && DigitValue(s[1]) == bs[0] % 16;
      assert DigitValue(s[0]) * 16 + DigitValue(s[1]) == bs[0];
      assert FromHex(s) == Some([bs[0]] + bs[1..]);
      assert [bs[0]] + bs[1..] == bs;
    }
  }

  /** Every canonical hex string is the `hex()` of what `fromhex` makes of it. */
  lemma {:induction false} HexFromHex(s: string)
    requires IsCanonicalHex(s)
    ensures FromHex(s).Some? && Hex(FromHex(s).value) == s
    decreases |s|
  {
    if s != [] {
      assert !IsAsciiSpace(s[0]) && IsHexDigit(s[0]) && IsHexDigit(s[1]);
      assert IsCanonicalHex(s[2..]) by {
        forall i | 0 <= i < |s[2..]| ensures IsLowerHexDigit(s[2..][i]) {
          assert s[2..][i] == s[i + 2];
        }
      }
      HexFromHex(s[2..]);
      var b := (DigitValue(s[0]) * 16 + DigitValue(s[1])) as byte;
      assert b / 16 == DigitValue(s[0]) && b % 16 == DigitValue(s[1]);
      LowerDigitOf(s[0]);
      LowerDigitOf(s[1]);
      assert s == [s[0], s[1]] + s[2..];
    }
  }

  lemma LowerDigitOf(c: char)
    requires IsLowerHexDigit(c)
    ensures LowerDigit(DigitValue(c)) == c
  {
  }

  /** `fromhex` is insensitive to whitespace placed between whole pairs. */
  lemma {:induction false} FromHexSkipsSpace(s: string, t: string)
    requires |s| % 2 == 0 && forall i :: 0 <= i < |s| ==> IsHexDigit(s[i])
    ensures FromHex(s + " " + t) == FromHex(s + t)
    decreases |s|
  {
    if s == [] {
      var u := s + " " + t;
      assert u == [' '] + t && u[0] == ' ' && IsAsciiSpace(u[0]);
      assert u[1..] == t && s + t == t;
    } else {
      assert (s + " " + t)[2..] == s[2..] + " " + t;
      assert (s + t)[2..] == s[2..] + t;
      FromHexSkipsSpace(s[2..], t);
    }
  }
}
