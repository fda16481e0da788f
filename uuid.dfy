/**
 * The part of the `uuid` crate's `Uuid` that db.rs relies on, following
 * RFC 9562 section 4: a UUID is a 128-bit value, laid out as 16 octets in
 * big-endian (network) order, and written as 32 lower-case hexadecimal
 * digits in the groups 8-4-4-4-12 separated by hyphens.
 */
module Uuid {
  import opened Wrappers

  /** Rust's `u8`. */
  newtype u8 = b: int | 0 <= b < 256

  /** The 16 octets of a UUID. */
  type UuidBytes = s: seq<u8> | |s| == 16 witness seq(16, _ => 0 as u8)

  /** A UUID, stored (as the crate does) as its 16 octets, most significant first. */
  datatype Uuid = Uuid(bytes: UuidBytes)

  // ---------------------------------------------------------------------
  // Big-endian octet strings and the 128-bit value
  // ---------------------------------------------------------------------

  function Pow256(n: nat): (r: nat)
    ensures r >= 1
  {
    if n == 0 then 1 else 256 * Pow256(n - 1)
  }

  /** The unsigned number that the octets `s` denote, first octet most significant. */
  function BigEndianValue(s: seq<u8>): (v: nat)
    ensures v < Pow256(|s|)
  {
    if s == [] then 0
    else
      var p := BigEndianValue(s[..|s| - 1]);
      assert p * 256 + 255 <= Pow256(|s| - 1) * 256 by { assert p + 1 <= Pow256(|s| - 1); }
      p * 256 + s[|s| - 1] as nat
  }

  /** The `n` low-order octets of `v`, most significant first. */
  function BigEndianBytes(v: nat, n: nat): (s: seq<u8>)
    ensures |s| == n
  {
    if n == 0 then [] else BigEndianBytes(v / 256, n - 1) + [(v % 256) as u8]
  }

  /** Reading octets and writing them back gives the same octets. */
  lemma {:induction false} BytesOfValue(s: seq<u8>)
    ensures BigEndianBytes(BigEndianValue(s), |s|) == s
  {
    if s != [] {
      var p := s[..|s| - 1];
      var b := s[|s| - 1];
      var v := BigEndianValue(s);
      assert v == BigEndianValue(p) * 256 + b as nat;
      assert v / 256 == BigEndianValue(p) && v % 256 == b as nat;
      BytesOfValue(p);
      assert s == p + [b];
    }
  }

  lemma QuotientFits(v: nat, p: nat)
    requires v < 256 * p
    ensures v / 256 < p
  {
  }

  /** Writing a number that fits in `n` octets and reading it back gives the number. */
  lemma {:induction false} ValueOfBytes(v: nat, n: nat)
    requires v < Pow256(n)
    ensures BigEndianValue(BigEndianBytes(v, n)) == v
  {
    if n > 0 {
      var s := BigEndianBytes(v, n);
      var q, r := v / 256, v % 256;
      QuotientFits(v, Pow256(n - 1));
      ValueOfBytes(q, n - 1);
      assert s == BigEndianBytes(q, n - 1) + [r as u8];
      assert s[..n - 1] == BigEndianBytes(q, n - 1);
      assert BigEndianValue(s[..n - 1]) == q;
      assert s[n - 1] as nat == r;
      assert BigEndianValue(s) == q * 256 + r;
    }
  }

  /** The UUID's 128-bit value (the crate's `as_u128`). */
  function Value(u: Uuid): (v: nat)
    ensures v < Pow256(16)
  {
    BigEndianValue(u.bytes)
  }

  /** The UUID with the given 128-bit value (the crate's `from_u128`). */
  function FromValue(v: nat): (u: Uuid)
    requires v < Pow256(16)
    ensures Value(u) == v
  {
    ValueOfBytes(v, 16);
    Uuid(BigEndianBytes(v, 16))
  }

  /** Every UUID is the one its 128-bit value names: the octets and the value are in bijection. */
  lemma FromValueOfValue(u: Uuid)
    ensures FromValue(Value(u)) == u
  {
    BytesOfValue(u.bytes);
  }

  // ---------------------------------------------------------------------
  // The hyphenated text form (the crate's `to_string`) and its parser
  // ---------------------------------------------------------------------

  predicate IsLowerHex(c: char) {
    '0' <= c <= '9' || 'a' <= c <= 'f'
  }

  function HexDigit(d: nat): (c: char)
    requires d < 16
    ensures IsLowerHex(c)
  {
    if d < 10 then (48 + d) as char else (87 + d) as char
  }

  /** The value of one hexadecimal digit, either case; `None` for any other character. */
  function DigitValue(c: char): (d: Option<nat>)
    ensures d.Some? ==> d.value < 16
    ensures IsLowerHex(c) ==> d.Some?
  {
    if '0' <= c <= '9' then Some(c as nat - 48)
    else if 'a' <= c <= 'f' then Some(c as nat - 87)
    else if 'A' <= c <= 'F' then Some(c as nat - 55)
    else None
  }

  lemma DigitRoundTrip(d: nat)
    requires d < 16
    ensures DigitValue(HexDigit(d)) == Some(d)
  {
  }

  /** Two lower-case hexadecimal digits per octet, high nibble first. */
  function Hex(bs: seq<u8>): (s: string)
    ensures |s| == 2 * |bs|
    ensures forall i :: 0 <= i < |s| ==> IsLowerHex(s[i])
  {
    if bs == [] then []
    else [HexDigit(bs[0] as nat / 16), HexDigit(bs[0] as nat % 16)] + Hex(bs[1..])
  }

  lemma {:induction false} HexAppend(a: seq<u8>, b: seq<u8>)
    ensures Hex(a + b) == Hex(a) + Hex(b)
  {
    if a != [] {
      var d := [HexDigit(a[0] as nat / 16), HexDigit(a[0] as nat % 16)];
      assert (a + b)[0] == a[0];
      assert (a + b)[1..] == a[1..] + b;
      assert Hex(a + b) == d + Hex(a[1..] + b);
      HexAppend(a[1..], b);
      assert Hex(a) == d + Hex(a[1..]);
    } else {
      assert a + b == b;
    }
  }

  /** Decodes pairs of hexadecimal digits into octets; `None` on an odd length or a non-digit. */
  function ParseHex(s: string): (r: Option<seq<u8>>)
    ensures r.Some? ==> 2 * |r.value| == |s|
  {
    if s == [] then Some([])
    else if |s| == 1 then None
    else
      match (DigitValue(s[0]), DigitValue(s[1]), ParseHex(s[2..]))
      case (Some(hi), Some(lo), Some(rest)) => Some([(hi * 16 + lo) as u8] + rest)
      case _ => None
  }

  lemma {:induction false} ParseHexOfHex(bs: seq<u8>)
    ensures ParseHex(Hex(bs)) == Some(bs)
  {
    if bs != [] {
      var s := Hex(bs);
      var hi, lo := bs[0] as nat / 16, bs[0] as nat % 16;
      DigitRoundTrip(hi);
      DigitRoundTrip(lo);
      assert s[2..] == Hex(bs[1..]);
      ParseHexOfHex(bs[1..]);
      assert (hi * 16 + lo) as u8 == bs[0];
      assert bs == [bs[0]] + bs[1..];
    }
  }

  /** The positions of the four hyphens in the hyphenated form. */
  predicate IsHyphenPosition(i: int) {
    i == 8 || i == 13 || i == 18 || i == 23
  }

  /** The hyphenated form: groups of 4, 2, 2, 2 and 6 octets, in order, as lower-case hex. */
  function Hyphenated(u: Uuid): (s: string)
    ensures |s| == 36
    ensures forall i :: 0 <= i < 36 ==> if IsHyphenPosition(i) then s[i] == '-' else IsLowerHex(s[i])
  {
    var b := u.bytes;
    Hex(b[0..4]) + "-" + Hex(b[4..6]) + "-" + Hex(b[6..8]) + "-" + Hex(b[8..10]) + "-" + Hex(b[10..16])
  }

  /** Reads the hyphenated form (either case) back into a UUID. */
  function ParseHyphenated(s: string): (r: Option<Uuid>)
    ensures r.Some? ==> |s| == 36 && forall i :: 0 <= i < 36 && IsHyphenPosition(i) ==> s[i] == '-'
  {
    if |s| != 36 || s[8] != '-' || s[13] != '-' || s[18] != '-' || s[23] != '-' then None
    else
      match ParseHex(s[0..8] + s[9..13] + s[14..18] + s[19..23] + s[24..36])
      case Some(bs) => Some(Uuid(bs))
      case None => None
  }

  /** Parsing the hyphenated form gives back the UUID. */
  lemma HyphenatedRoundTrip(u: Uuid)
    ensures ParseHyphenated(Hyphenated(u)) == Some(u)
  {
    var b := u.bytes;
    var s := Hyphenated(u);
    var g0, g1, g2, g3, g4 := b[0..4], b[4..6], b[6..8], b[8..10], b[10..16];
    assert s[0..8] == Hex(g0);
    assert s[9..13] == Hex(g1);
    assert s[14..18] == Hex(g2);
    assert s[19..23] == Hex(g3);
    assert s[24..36] == Hex(g4);
    HexAppend(g0, g1);
    HexAppend(g0 + g1, g2);
    HexAppend(g0 + g1 + g2, g3);
    HexAppend(g0 + g1 + g2 + g3, g4);
    assert g0 + g1 + g2 + g3 + g4 == b;
    ParseHexOfHex(b);
  }

  /** Distinct UUIDs have distinct hyphenated forms. */
  lemma HyphenatedInjective(u: Uuid, w: Uuid)
    requires Hyphenated(u) == Hyphenated(w)
    ensures u == w
  {
    HyphenatedRoundTrip(u);
    HyphenatedRoundTrip(w);
  }
}
