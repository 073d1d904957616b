/**
 * Python's `str.encode()` and `bytes.decode()` with their default codec,
 * strict UTF-8 (RFC 3629): a decoder that rejects overlong forms, surrogate
 * code points and values above U+10FFFF. Dafny characters are Unicode scalar
 * values, so every string encodes.
 */
module Utf8 {
  import opened Wrappers
  import opened Octets

  predicate IsAscii(s: string) {
    forall i :: 0 <= i < |s| ==> s[i] as int < 0x80
  }

  predicate IsContinuation(b: byte) {
    0x80 <= b < 0xC0
  }

  /** The UTF-8 form of one character. */
  function EncodeChar(c: char): (r: Bytes)
    ensures 1 <= |r| <= 4
    ensures |r| == 1 <==> c as int < 0x80
  {
    var v := c as int;
    if v < 0x80 then [v as byte]
    else if v < 0x800 then [(0xC0 + v / 64) as byte, (0x80 + v % 64) as byte]
    else if v < 0x1_0000 then
      [(0xE0 + v / 4096) as byte, (0x80 + (v / 64) % 64) as byte, (0x80 + v % 64) as byte]
    else
      [(0xF0 + v / 262144) as byte, (0x80 + (v / 4096) % 64) as byte,
       (0x80 + (v / 64) % 64) as byte, (0x80 + v % 64) as byte]
  }

  /** `str.encode()`. */
  function Encode(s: string): (r: Bytes)
  {
    if s == [] then [] else EncodeChar(s[0]) + Encode(s[1..])
  }

  /**
   * The first character of a non-empty byte string and the number of bytes
   * it takes; `None` for an invalid sequence.
   */
  function DecodeFirst(s: Bytes): (r: Option<(char, nat)>)
    requires |s| > 0
    ensures r.Some? ==> 1 <= r.value.1 <= |s| && r.value.1 <= 4
  {
    var b0 := s[0] as int;
    if b0 < 0x80 then Some((b0 as char, 1))
    else if 0xC2 <= b0 <= 0xDF then
      if |s| >= 2 && IsContinuation(s[1]) then
        Some((((b0 - 0xC0) * 64 + (s[1] as int - 0x80)) as char, 2))
      else None
    else if 0xE0 <= b0 <= 0xEF then
      var lo := if b0 == 0xE0 then 0xA0 else 0x80;
      var hi := if b0 == 0xED then 0xA0 else 0xC0;
      if |s| >= 3 && lo <= s[1] < hi && IsContinuation(s[2]) then
        Some((((b0 - 0xE0) * 4096 + (s[1] as int - 0x80) * 64 + (s[2] as int - 0x80)) as char, 3))
      else None
    else if 0xF0 <= b0 <= 0xF4 then
      var lo := if b0 == 0xF0 then 0x90 else 0x80;
      var hi := if b0 == 0xF4 then 0x90 else 0xC0;
      if |s| >= 4 && lo <= s[1] < hi && IsContinuation(s[2]) && IsContinuation(s[3]) then
        Some((((b0 - 0xF0) * 262144 + (s[1] as int - 0x80) * 4096 + (s[2] as int - 0x80) * 64 + (s[3] as int - 0x80)) as char, 4))
      else None
    else None
  }

  /** `bytes.decode()`; `None` stands for the UnicodeDecodeError it raises. */
  function Decode(s: Bytes): (r: Option<string>)
    decreases |s|
  {
    if s == [] then Some([])
    else match DecodeFirst(s)
      case None => None
      case Some((c, n)) =>
        match Decode(s[n..])
        case None => None
        case Some(rest) => Some([c] + rest)
  }

  /** Decoding reads back exactly the character that was encoded, whatever follows it. */
  lemma DecodeFirstEncodeChar(c: char, rest: Bytes)
    ensures DecodeFirst(EncodeChar(c) + rest) == Some((c, |EncodeChar(c)|))
  {
    var v := c as int;
    if v < 0x80 {
    } else if v < 0x800 {
      DecodeTwo(c, rest);
    } else if v < 0x1_0000 {
      DecodeThree(c, rest);
    } else {
      DecodeFour(c, rest);
    }
  }

  lemma DecodeTwo(c: char, rest: Bytes)
    requires 0x80 <= c as int < 0x800
    ensures DecodeFirst(EncodeChar(c) + rest) == Some((c, 2))
  {
    var v := c as int;
    var s := EncodeChar(c) + rest;
    assert s[0] == 0xC0 + v / 64 && s[1] == 0x80 + v % 64;
  }

  lemma DecodeThree(c: char, rest: Bytes)
    requires 0x800 <= c as int < 0x1_0000
    ensures DecodeFirst(EncodeChar(c) + rest) == Some((c, 3))
  {
    var v := c as int;
    var s := EncodeChar(c) + rest;
    var hi, mid, lo := v / 4096, (v / 64) % 64, v % 64;
    assert s[0] == 0xE0 + hi && s[1] == 0x80 + mid && s[2] == 0x80 + lo;
    assert hi * 4096 + mid * 64 + lo == v by {
      DigitsOf64(v, 2);
    }
  }

  lemma DecodeFour(c: char, rest: Bytes)
    requires 0x1_0000 <= c as int
    ensures DecodeFirst(EncodeChar(c) + rest) == Some((c, 4))
  {
    var v := c as int;
    var s := EncodeChar(c) + rest;
    var top, hi, mid, lo := v / 262144, (v / 4096) % 64, (v / 64) % 64, v % 64;
    assert s[0] == 0xF0 + top && s[1] == 0x80 + hi;
    assert s[2] == 0x80 + mid && s[3] == 0x80 + lo;
    assert top * 262144 + hi * 4096 + mid * 64 + lo == v by {
      DigitsOf64(v, 3);
    }
  }

  /** Base-64 digits: `v` is rebuilt from its quotient by `64^k` and the `k` digits below it. */
  lemma DigitsOf64(v: nat, k: nat)
    requires k == 2 || k == 3
    ensures k == 2 ==> v / 4096 * 4096 + (v / 64) % 64 * 64 + v % 64 == v
    ensures k == 3 ==> v / 262144 * 262144 + (v / 4096) % 64 * 4096 + (v / 64) % 64 * 64 + v % 64 == v
  {
    assert v / 64 * 64 + v % 64 == v;
    assert (v / 64) / 64 == v / 4096;
    assert v / 4096 * 64 + (v / 64) % 64 == v / 64;
    assert (v / 4096) / 64 == v / 262144;
    assert v / 262144 * 64 + (v / 4096) % 64 == v / 4096;
  }

  /** `s.encode().decode() == s` for every string. */
  lemma {:induction false} DecodeEncode(s: string)
    ensures Decode(Encode(s)) == Some(s)
  {
    if s != [] {
      var head := EncodeChar(s[0]);
      DecodeFirstEncodeChar(s[0], Encode(s[1..]));
      assert Encode(s)[|head|..] == Encode(s[1..]);
      DecodeEncode(s[1..]);
      assert [s[0]] + s[1..] == s;
    }
  }

  /** Encoding distributes over concatenation. */
  lemma {:induction false} EncodeAppend(s: string, t: string)
    ensures Encode(s + t) == Encode(s) + Encode(t)
  {
    if s == [] {
      assert s + t == t;
    } else {
      assert (s + t)[1..] == s[1..] + t;
      EncodeAppend(s[1..], t);
    }
  }

  /** ASCII text encodes to one byte per character, each the character's code. */
  lemma {:induction false} EncodeAscii(s: string)
    requires IsAscii(s)
    ensures |Encode(s)| == |s|
    ensures forall i :: 0 <= i < |s| ==> Encode(s)[i] == s[i] as int
  {
    if s != [] {
      assert IsAscii(s[1..]) by {
        forall i | 0 <= i < |s[1..]| ensures s[1..][i] as int < 0x80 {
          assert s[1..][i] == s[i + 1];
        }
      }
      EncodeAscii(s[1..]);
      forall i | 0 <= i < |s| ensures Encode(s)[i] == s[i] as int {
        if i > 0 {
          assert Encode(s)[i] == Encode(s[1..])[i - 1];
          assert s[1..][i - 1] == s[i];
        }
      }
    }
  }

  /** A character outside ASCII takes more than one byte. */
  lemma EncodeWide(s: string)
    requires !IsAscii(s)
    ensures |Encode(s)| > |s|
  {
    var i :| 0 <= i < |s| && s[i] as int >= 0x80;
    EncodeAppend(s[..i], s[i..]);
    assert s == s[..i] + s[i..];
    EncodeLength(s[..i]);
    assert s[i..] == [s[i]] + s[i + 1..];
    assert Encode(s[i..]) == EncodeChar(s[i]) + Encode(s[i + 1..]);
    EncodeLength(s[i + 1..]);
  }

  /** No encoding is shorter than its text. */
  lemma {:induction false} EncodeLength(s: string)
    ensures |Encode(s)| >= |s|
  {
    if s != [] {
      EncodeLength(s[1..]);
    }
  }
}
