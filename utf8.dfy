/**
 * Go strings are byte sequences; converting one to `[]rune` decodes it as
 * UTF-8, turning every byte that does not start a well-formed sequence into
 * one RuneError. The length validators count the runes of that conversion.
 */
module Utf8 {

  /** One byte of a Go string. */
  type Byte = b: int | 0 <= b < 0x100

  /** A Go string: immutable bytes, normally but not necessarily UTF-8. */
  type GoString = seq<Byte>

  /** A Go rune (a code point, or RuneError for undecodable input). */
  type Rune = int

  const RuneError: Rune := 0xFFFD
  const MaxRune: Rune := 0x10FFFF

  /** A Unicode scalar value: a code point that is not a surrogate. */
  predicate IsScalar(r: Rune) {
    0 <= r <= MaxRune && !(0xD800 <= r <= 0xDFFF)
  }

  predicate IsContinuation(b: Byte) { 0x80 <= b <= 0xBF }

  /**
   * Decodes the rune at the start of `s` and says how many bytes it used,
   * with the acceptance ranges of Go's utf8.DecodeRune: a lead byte below
   * 0xC2 or above 0xF4, a second byte outside the range its lead byte
   * allows (which rules out overlong forms, surrogates and values above
   * MaxRune), a bad continuation byte or a truncated sequence all give
   * RuneError with width 1.
   */
  function DecodeRune(s: GoString): (d: (Rune, nat))
    requires s != []
    ensures 1 <= d.1 <= 4 && d.1 <= |s|
    ensures d.1 > 1 ==> IsScalar(d.0)
  {
    var b0 := s[0];
    if b0 < 0x80 then (b0, 1)
    else if b0 < 0xC2 || 0xF4 < b0 then (RuneError, 1)
    else
      var size := if b0 < 0xE0 then 2 else if b0 < 0xF0 then 3 else 4;
      var lo := if b0 == 0xE0 then 0xA0 else if b0 == 0xF0 then 0x90 else 0x80;
      var hi := if b0 == 0xED then 0x9F else if b0 == 0xF4 then 0x8F else 0xBF;
      if |s| < size || s[1] < lo || hi < s[1] then (RuneError, 1)
      else if size == 2 then ((b0 - 0xC0) * 0x40 + (s[1] - 0x80), 2)
      else if !IsContinuation(s[2]) then (RuneError, 1)
      else if size == 3 then ((b0 - 0xE0) * 0x1000 + (s[1] - 0x80) * 0x40 + (s[2] - 0x80), 3)
      else if !IsContinuation(s[3]) then (RuneError, 1)
      else ((b0 - 0xF0) * 0x40000 + (s[1] - 0x80) * 0x1000 + (s[2] - 0x80) * 0x40 + (s[3] - 0x80), 4)
  }

  /** Go's `[]rune(s)`. */
  function Runes(s: GoString): (rs: seq<Rune>)
    ensures |rs| <= |s|
    ensures rs == [] <==> s == []
    decreases |s|
  {
    if s == [] then [] else
      var d := DecodeRune(s);
      [d.0] + Runes(s[d.1..])
  }

  /** Go's `len([]rune(s))`. */
  function RuneCount(s: GoString): nat {
    |Runes(s)|
  }

  /** The UTF-8 encoding of one scalar value, as Go's utf8.EncodeRune writes it. */
  function EncodeRune(r: Rune): (bs: GoString)
    requires IsScalar(r)
    ensures 1 <= |bs| <= 4
  {
    if r < 0x80 then [r]
    else if r < 0x800 then [0xC0 + r / 0x40, 0x80 + r % 0x40]
    else if r < 0x10000 then [0xE0 + r / 0x1000, 0x80 + (r / 0x40) % 0x40, 0x80 + r % 0x40]
    else [0xF0 + r / 0x40000, 0x80 + (r / 0x1000) % 0x40, 0x80 + (r / 0x40) % 0x40, 0x80 + r % 0x40]
  }

  predicate AllScalar(rs: seq<Rune>) {
    forall i :: 0 <= i < |rs| ==> IsScalar(rs[i])
  }

  /** The Go string literal holding the given scalar values. */
  function Encode(rs: seq<Rune>): (s: GoString)
    requires AllScalar(rs)
    ensures |rs| <= |s| <= 4 * |rs|
  {
    if rs == [] then [] else EncodeRune(rs[0]) + Encode(rs[1..])
  }

  /** Decoding the encoding of a scalar value gives it back, whatever follows. */
  lemma DecodeEncodeRune(r: Rune, rest: GoString)
    requires IsScalar(r)
    ensures DecodeRune(EncodeRune(r) + rest) == (r, |EncodeRune(r)|)
  {
    if r < 0x80 {
    } else if r < 0x800 {
      DecodeTwoBytes(r, rest);
    } else if r < 0x10000 {
      DecodeThreeBytes(r, rest);
    } else {
      DecodeFourBytes(r, rest);
    }
  }

  lemma DecodeTwoBytes(r: Rune, rest: GoString)
    requires 0x80 <= r < 0x800
    ensures DecodeRune(EncodeRune(r) + rest) == (r, 2)
  {
    var s := EncodeRune(r) + rest;
    var a, c := r / 0x40, r % 0x40;
    assert r == a * 0x40 + c;
    assert 2 <= a < 0x20;
    assert s[0] == 0xC0 + a && s[1] == 0x80 + c;
  }

  lemma DecodeThreeBytes(r: Rune, rest: GoString)
    requires 0x800 <= r < 0x10000 && !(0xD800 <= r <= 0xDFFF)
    ensures DecodeRune(EncodeRune(r) + rest) == (r, 3)
  {
    var s := EncodeRune(r) + rest;
    var a, b, c := r / 0x1000, (r / 0x40) % 0x40, r % 0x40;
    assert r / 0x40 == a * 0x40 + b;
    assert r == a * 0x1000 + b * 0x40 + c;
    assert a < 0x10;
    assert a == 0 ==> b >= 0x20;
    assert a == 0xD ==> b < 0x20;
    assert s[0] == 0xE0 + a && s[1] == 0x80 + b && s[2] == 0x80 + c;
  }

  lemma DecodeFourBytes(r: Rune, rest: GoString)
    requires 0x10000 <= r <= MaxRune
    ensures DecodeRune(EncodeRune(r) + rest) == (r, 4)
  {
    var s := EncodeRune(r) + rest;
    var a, b, c, e := r / 0x40000, (r / 0x1000) % 0x40, (r / 0x40) % 0x40, r % 0x40;
    assert r / 0x1000 == a * 0x40 + b;
    assert r / 0x40 == (a * 0x40 + b) * 0x40 + c;
    assert r == a * 0x40000 + b * 0x1000 + c * 0x40 + e;
    assert a <= 4;
    assert a == 0 ==> b >= 0x10;
    assert a == 4 ==> b < 0x10;
    assert s[0] == 0xF0 + a && s[1] == 0x80 + b && s[2] == 0x80 + c && s[3] == 0x80 + e;
  }

  /** `[]rune` of a well-formed string gives back exactly the encoded scalar values. */
  lemma {:induction false} RunesEncode(rs: seq<Rune>)
    requires AllScalar(rs)
    ensures Runes(Encode(rs)) == rs
  {
    if rs != [] {
      var e := EncodeRune(rs[0]);
      var tail := Encode(rs[1..]);
      assert Encode(rs) == e + tail;
      DecodeEncodeRune(rs[0], tail);
      assert (e + tail)[|e|..] == tail;
      RunesEncode(rs[1..]);
    }
  }

  /** The rune count of a well-formed string is its number of scalar values, not of bytes. */
  lemma RuneCountEncode(rs: seq<Rune>)
    requires AllScalar(rs)
    ensures RuneCount(Encode(rs)) == |rs|
  {
    RunesEncode(rs);
  }

  /** "日本語": three characters in nine bytes count as three runes. */
  lemma ThreeMultiByteRunes()
    ensures RuneCount([0xE6, 0x97, 0xA5, 0xE6, 0x9C, 0xAC, 0xE8, 0xAA, 0x9E]) == 3
  {
    var rs := [0x65E5, 0x672C, 0x8A9E];
    assert Encode(rs[2..]) == [0xE8, 0xAA, 0x9E];
    assert Encode(rs[1..]) == [0xE6, 0x9C, 0xAC, 0xE8, 0xAA, 0x9E];
    assert Encode(rs) == [0xE6, 0x97, 0xA5, 0xE6, 0x9C, 0xAC, 0xE8, 0xAA, 0x9E];
    RuneCountEncode(rs);
  }
}
