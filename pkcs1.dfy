/**
 * A concrete `Rsa.Scheme` that satisfies `Scheme.Valid()`, so the properties
 * the protocol assumes of the RSA library are consistent. Blocks use the
 * EME-PKCS1-v1_5 encoding of section 7.2.1 of RFC 8017
 * (0x00 || 0x02 || PS || 0x00 || M, at least eight padding bytes, hence the
 * overhead of 11); the modular exponentiation on top of it is left out, so
 * the block is the encoded message itself. Keys are written as decimal
 * fields ended by ';'.
 */
module Pkcs1 {
  import opened Wrappers
  import opened Octets
  import opened Utf8
  import opened Rsa

  /** The padding string: any nonzero bytes (random in the library). */
  function PaddingString(len: nat): (ps: Bytes)
    ensures |ps| == len
    ensures forall i :: 0 <= i < len ==> ps[i] != 0
  {
    if len == 0 then [] else [0xFF] + PaddingString(len - 1)
  }

  /** EME-PKCS1-v1_5 encoding of `m` into a block of `k` bytes. */
  function Pad(m: Bytes, k: nat): (em: Bytes)
    ensures |m| + PaddingOverhead <= k ==> |em| == k
  {
    var psLen := if |m| + 3 <= k then k - 3 - |m| else 0;
    [0x00, 0x02] + PaddingString(psLen) + [0x00] + m
  }

  /** Index of the first zero byte at or after `from`, if any. */
  function FirstZero(s: Bytes, from: nat): (r: Option<nat>)
    ensures r.Some? ==> from <= r.value < |s| && s[r.value] == 0
    ensures r.Some? ==> forall i :: from <= i < r.value ==> s[i] != 0
    ensures r.None? ==> forall i :: from <= i < |s| ==> s[i] != 0
    decreases |s| - from
  {
    if from >= |s| then None
    else if s[from] == 0 then Some(from)
    else FirstZero(s, from + 1)
  }

  /** EME-PKCS1-v1_5 decoding: the checks of section 7.2.2 step 3 of RFC 8017. */
  function Unpad(em: Bytes): (r: Option<Bytes>)
  {
    if |em| < 2 || em[0] != 0x00 || em[1] != 0x02 then None
    else match FirstZero(em, 2)
      case None => None
      case Some(sep) => if sep < 10 then None else Some(em[sep + 1..])
  }

  lemma UnpadPad(m: Bytes, k: nat)
    requires |m| + PaddingOverhead <= k
    ensures Unpad(Pad(m, k)) == Some(m)
  {
    var em := Pad(m, k);
    var psLen := k - 3 - |m|;
    assert em[2 + psLen] == 0;
    forall i | 2 <= i < 2 + psLen ensures em[i] != 0 {
      assert em[i] == PaddingString(psLen)[i - 2];
    }
    assert FirstZero(em, 2) == Some(2 + psLen) by {
      FirstZeroIs(em, 2, 2 + psLen);
    }
    assert em[2 + psLen + 1..] == m;
  }

  lemma {:induction false} FirstZeroIs(s: Bytes, from: nat, at: nat)
    requires from <= at < |s| && s[at] == 0
    requires forall i :: from <= i < at ==> s[i] != 0
    ensures FirstZero(s, from) == Some(at)
    decreases at - from
  {
    if from < at {
      FirstZeroIs(s, from + 1, at);
    }
  }

  // Decimal key text

  function Digit(v: nat): (c: char)
    requires v < 10
  {
    ('0' as int + v) as char
  }

  /** The decimal digits of `x`, most significant first. */
  function Decimal(x: nat): (s: string)
    ensures |s| >= 1
    ensures forall i :: 0 <= i < |s| ==> '0' <= s[i] <= '9'
  {
    if x < 10 then [Digit(x)] else Decimal(x / 10) + [Digit(x % 10)]
  }

  function Pow10(k: nat): (p: nat)
    ensures p >= 1
  {
    if k == 0 then 1 else 10 * Pow10(k - 1)
  }

  /** Reads decimal digits up to a ';' into `acc`; returns the number and what follows. */
  function ReadNat(s: string, acc: nat): (r: Option<(nat, string)>)
    decreases |s|
  {
    if s == [] then None
    else if s[0] == ';' then Some((acc, s[1..]))
    else if '0' <= s[0] <= '9' then ReadNat(s[1..], acc * 10 + (s[0] as int - '0' as int))
    else None
  }

  lemma {:induction false} ReadDecimal(x: nat, acc: nat, rest: string)
    ensures ReadNat(Decimal(x) + rest, acc) == ReadNat(rest, acc * Pow10(|Decimal(x)|) + x)
  {
    if x < 10 {
      var s := Decimal(x) + rest;
      assert s[0] == Digit(x) && s[1..] == rest;
    } else {
      var high := Decimal(x / 10);
      assert Decimal(x) + rest == high + ([Digit(x % 10)] + rest);
      ReadDecimal(x / 10, acc, [Digit(x % 10)] + rest);
      var mid := acc * Pow10(|high|) + x / 10;
      var t := [Digit(x % 10)] + rest;
      assert t[0] == Digit(x % 10) && t[1..] == rest;
      assert ReadNat(t, mid) == ReadNat(rest, mid * 10 + x % 10);
      ShiftDigit(acc, Pow10(|high|), x);
      assert |Decimal(x)| == |high| + 1;
    }
  }

  lemma ShiftDigit(acc: nat, p: nat, x: nat)
    ensures (acc * p + x / 10) * 10 + x % 10 == acc * (10 * p) + x
  {
    var q := acc * p;
    assert q * 10 == acc * (10 * p);
    assert (q + x / 10) * 10 + x % 10 == q * 10 + x;
  }

  /** The text of a field list: each number in decimal followed by ';'. */
  function Fields(xs: seq<nat>): string {
    if xs == [] then [] else Decimal(xs[0]) + ";" + Fields(xs[1..])
  }

  function ReadFields(s: string, count: nat): (r: Option<seq<nat>>)
    ensures r.Some? ==> |r.value| == count
    decreases count
  {
    if count == 0 then (if s == [] then Some([]) else None)
    else match ReadNat(s, 0)
      case None => None
      case Some((x, rest)) =>
        if |rest| < |s| then
          match ReadFields(rest, count - 1)
          case None => None
          case Some(xs) => Some([x] + xs)
        else None
  }

  lemma {:induction false} ReadFieldsFields(xs: seq<nat>)
    ensures ReadFields(Fields(xs), |xs|) == Some(xs)
  {
    if xs != [] {
      var rest := Fields(xs[1..]);
      assert Fields(xs) == Decimal(xs[0]) + (";" + rest);
      ReadDecimal(xs[0], 0, ";" + rest);
      var t := ";" + rest;
      assert t[0] == ';' && t[1..] == rest;
      ReadFieldsFields(xs[1..]);
      assert [xs[0]] + xs[1..] == xs;
    }
  }

  lemma {:induction false} FieldsAscii(xs: seq<nat>)
    ensures IsAscii(Fields(xs))
  {
    if xs != [] {
      FieldsAscii(xs[1..]);
      var s := Fields(xs);
      var d := Decimal(xs[0]);
      assert s == d + ";" + Fields(xs[1..]);
      forall i | 0 <= i < |s| ensures s[i] as int < 0x80 {
        if i < |d| {
          assert s[i] == d[i];
        } else if i > |d| {
          assert s[i] == Fields(xs[1..])[i - |d| - 1];
        }
      }
    }
  }

  function SavePublic(k: PublicKey): string {
    Fields([k.n, k.e])
  }

  function LoadPublic(s: string): Option<PublicKey> {
    match ReadFields(s, 2)
    case None => None
    case Some(xs) => Some(PublicKey(xs[0], xs[1]))
  }

  function SavePrivate(k: PrivateKey): string {
    Fields([k.n, k.e, k.d])
  }

  function LoadPrivate(s: string): Option<PrivateKey> {
    match ReadFields(s, 3)
    case None => None
    case Some(xs) => Some(PrivateKey(xs[0], xs[1], xs[2]))
  }

  /** Padding-only RSA with decimal key text. */
  function PaddingScheme(): Scheme {
    Scheme(
      (pub: PublicKey, m: Bytes) => Pad(m, ByteSize(pub.n)),
      (priv: PrivateKey, c: Bytes) => if |c| == ByteSize(priv.n) then Unpad(c) else None,
      SavePublic, LoadPublic, SavePrivate, LoadPrivate)
  }

  /** The assumptions made of the RSA library can all hold at once. */
  lemma PaddingSchemeValid()
    ensures PaddingScheme().Valid()
  {
    var sc := PaddingScheme();
    forall pub: PublicKey, priv: PrivateKey, m: Bytes |
      Matches(pub, priv) && |m| + PaddingOverhead <= ByteSize(pub.n)
      ensures sc.decryptBlock(priv, sc.encryptBlock(pub, m)) == Some(m)
    {
      UnpadPad(m, ByteSize(pub.n));
    }
    forall k: PublicKey ensures sc.loadPublic(sc.savePublic(k)) == Some(k) && IsAscii(sc.savePublic(k)) {
      ReadFieldsFields([k.n, k.e]);
      FieldsAscii([k.n, k.e]);
    }
    forall k: PrivateKey ensures sc.loadPrivate(sc.savePrivate(k)) == Some(k) && IsAscii(sc.savePrivate(k)) {
      ReadFieldsFields([k.n, k.e, k.d]);
      FieldsAscii([k.n, k.e, k.d]);
    }
  }
}
