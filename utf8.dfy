/**
 * UTF-8 as defined in section 3 of RFC 3629: the byte form of a Rust `str`
 * (`str::as_bytes`) and the strict check-and-decode of `std::str::from_utf8`.
 */
module Utf8 {
  import opened Wrappers

  newtype byte = b: int | 0 <= b < 256

  predicate IsContinuation(b: byte) {
    0x80 <= b < 0xC0
  }

  /** The encoding of one Unicode scalar value: one to four bytes. */
  function EncodeChar(c: char): (r: seq<byte>)
    ensures 1 <= |r| <= 4
    ensures c as int < 0x80 ==> r == [c as int as byte]
    ensures c as int >= 0x80 ==> forall k :: 0 <= k < |r| ==> r[k] >= 0x80
  {
    var cp := c as int;
    if cp < 0x80 then
      [cp as byte]
    else if cp < 0x800 then
      [(0xC0 + cp / 64) as byte, (0x80 + cp % 64) as byte]
    else if cp < 0x1_0000 then
      [(0xE0 + cp / 4096) as byte, (0x80 + (cp / 64) % 64) as byte, (0x80 + cp % 64) as byte]
    else
      [(0xF0 + cp / 262144) as byte, (0x80 + (cp / 4096) % 64) as byte, (0x80 + (cp / 64) % 64) as byte, (0x80 + cp % 64) as byte]
  }

  /** `str::as_bytes`: the UTF-8 form of a string. */
  function Encode(s: string): (r: seq<byte>)
    ensures |s| <= |r| <= 4 * |s|
  {
    if s == [] then [] else EncodeChar(s[0]) + Encode(s[1..])
  }

  /**
   * Decodes the scalar value at the head of `b` and the number of bytes it
   * takes, or None when the head is not a well-formed UTF-8 sequence
   * (a stray continuation byte, an overlong form, a surrogate, a value above
   * U+10FFFF or a truncated sequence).
   */
  function DecodeChar(b: seq<byte>): (r: Option<(char, nat)>)
    requires |b| > 0
    ensures r.Some? ==> 1 <= r.value.1 <= |b| && r.value.1 <= 4
  {
    var b0 := b[0] as int;
    if b0 < 0x80 then
      Some((b0 as char, 1))
    else if 0xC2 <= b0 <= 0xDF then
      if |b| >= 2 && IsContinuation(b[1]) then
        Some((((b0 - 0xC0) * 64 + (b[1] as int - 0x80)) as char, 2))
      else None
    else if 0xE0 <= b0 <= 0xEF then
      var lo := if b0 == 0xE0 then 0xA0 else 0x80;
      var hi := if b0 == 0xED then 0xA0 else 0xC0;
      if |b| >= 3 && lo <= b[1] as int < hi && IsContinuation(b[2]) then
        var cp := (b0 - 0xE0) * 4096 + (b[1] as int - 0x80) * 64 + (b[2] as int - 0x80);
        assert 0x800 <= cp < 0xD800 || 0xE000 <= cp < 0x1_0000;
        Some((cp as char, 3))
      else None
    else if 0xF0 <= b0 <= 0xF4 then
      var lo := if b0 == 0xF0 then 0x90 else 0x80;
      var hi := if b0 == 0xF4 then 0x90 else 0xC0;
      if |b| >= 4 && lo <= b[1] as int < hi && IsContinuation(b[2]) && IsContinuation(b[3]) then
        var cp := (b0 - 0xF0) * 262144 + (b[1] as int - 0x80) * 4096 + (b[2] as int - 0x80) * 64 + (b[3] as int - 0x80);
        assert 0x1_0000 <= cp < 0x11_0000;
        Some((cp as char, 4))
      else None
    else
      None
  }

  /** `std::str::from_utf8`: the string the bytes encode, or None when they are not valid UTF-8. */
  function Decode(b: seq<byte>): (r: Option<string>)
    ensures r.Some? ==> |r.value| <= |b|
    decreases |b|
  {
    if b == [] then Some([])
    else match DecodeChar(b)
      case None => None
      case Some((c, n)) =>
        match Decode(b[n..])
        case None => None
        case Some(s) => Some([c] + s)
  }

  lemma DecodeTwo(c: char, rest: seq<byte>)
    requires 0x80 <= c as int < 0x800
    ensures DecodeChar(EncodeChar(c) + rest) == Some((c, 2))
  {
    var b := EncodeChar(c) + rest;
    var cp := c as int;
    var q, r := cp / 64, cp % 64;
    assert b[0] as int == 0xC0 + q && b[1] as int == 0x80 + r;
    assert 2 <= q < 32;
    assert (((b[0] as int) - 0xC0) * 64 + ((b[1] as int) - 0x80)) == cp;
  }

  lemma DecodeThree(c: char, rest: seq<byte>)
    requires 0x800 <= c as int < 0x1_0000
    ensures DecodeChar(EncodeChar(c) + rest) == Some((c, 3))
  {
    var b := EncodeChar(c) + rest;
    var cp := c as int;
    var q, r := cp / 64, cp % 64;
    var q2, r2 := q / 64, q % 64;
    assert cp == q * 64 + r;
    assert q == q2 * 64 + r2;
    assert cp / 4096 == q2;
    assert b[0] as int == 0xE0 + q2 && b[1] as int == 0x80 + r2 && b[2] as int == 0x80 + r;
    assert (q2 * 64 + r2) * 64 + r == cp;
  }

  lemma DecodeFour(c: char, rest: seq<byte>)
    requires 0x1_0000 <= c as int
    ensures DecodeChar(EncodeChar(c) + rest) == Some((c, 4))
  {
    var b := EncodeChar(c) + rest;
    var cp := c as int;
    var q, r := cp / 64, cp % 64;
    var q2, r2 := q / 64, q % 64;
    var q3, r3 := q2 / 64, q2 % 64;
    assert cp == q * 64 + r;
    assert q == q2 * 64 + r2;
    assert q2 == q3 * 64 + r3;
    assert cp / 4096 == q2;
    assert cp / 262144 == q3;
    assert b[0] as int == 0xF0 + q3 && b[1] as int == 0x80 + r3 && b[2] as int == 0x80 + r2 && b[3] as int == 0x80 + r;
    assert ((q3 * 64 + r3) * 64 + r2) * 64 + r == cp;
  }

  /** Decoding the encoding of a character gives it back and consumes exactly its bytes. */
  lemma DecodeEncodeChar(c: char, rest: seq<byte>)
    ensures var e := EncodeChar(c);
      DecodeChar(e + rest) == Some((c, |e|))
  {
    var cp := c as int;
    var e := EncodeChar(c);
    if cp < 0x80 {
    } else if cp < 0x800 {
      DecodeTwo(c, rest);
    } else if cp < 0x1_0000 {
      DecodeThree(c, rest);
    } else {
      DecodeFour(c, rest);
    }
  }

  /** `from_utf8(s.as_bytes())` gives back `s`. */
  lemma {:induction false} DecodeEncode(s: string)
    ensures Decode(Encode(s)) == Some(s)
    decreases |s|
  {
    if s != [] {
      var e := EncodeChar(s[0]);
      var tail := Encode(s[1..]);
      DecodeEncodeChar(s[0], tail);
      assert (e + tail)[|e|..] == tail;
      DecodeEncode(s[1..]);
      assert [s[0]] + s[1..] == s;
    }
  }

  /** Bytes that decode to a character are exactly that character's encoding. */
  lemma EncodeDecodeChar(b: seq<byte>)
    requires |b| > 0 && DecodeChar(b).Some?
    ensures var (c, n) := DecodeChar(b).value; EncodeChar(c) == b[..n]
  {
    var b0 := b[0] as int;
    if b0 < 0x80 {
    } else if b0 <= 0xDF {
      EncodedTwo(b);
    } else if b0 <= 0xEF {
      EncodedThree(b);
    } else {
      EncodedFour(b);
    }
  }

  lemma EncodedTwo(b: seq<byte>)
    requires |b| >= 2 && 0xC2 <= b[0] <= 0xDF && IsContinuation(b[1])
    ensures DecodeChar(b).Some? && EncodeChar(DecodeChar(b).value.0) == b[..2]
  {
    var x, y := b[0] as int - 0xC0, b[1] as int - 0x80;
    SplitDigit(x, y);
    assert EncodeChar(DecodeChar(b).value.0) == [b[0], b[1]];
  }

  lemma EncodedThree(b: seq<byte>)
    requires |b| >= 3 && 0xE0 <= b[0] <= 0xEF && DecodeChar(b).Some?
    ensures EncodeChar(DecodeChar(b).value.0) == b[..3]
  {
    var x, y, z := b[0] as int - 0xE0, b[1] as int - 0x80, b[2] as int - 0x80;
    SplitDigit(x, y);
    SplitDigit(x * 64 + y, z);
    assert EncodeChar(DecodeChar(b).value.0) == [b[0], b[1], b[2]];
  }

  lemma EncodedFour(b: seq<byte>)
    requires |b| >= 4 && 0xF0 <= b[0] <= 0xF4 && DecodeChar(b).Some?
    ensures EncodeChar(DecodeChar(b).value.0) == b[..4]
  {
    var w, x, y, z := b[0] as int - 0xF0, b[1] as int - 0x80, b[2] as int - 0x80, b[3] as int - 0x80;
    SplitDigit(w, x);
    SplitDigit(w * 64 + x, y);
    SplitDigit((w * 64 + x) * 64 + y, z);
    assert EncodeChar(DecodeChar(b).value.0) == [b[0], b[1], b[2], b[3]];
  }

  /** Base-64 digits: `q * 64 + r` divides back into `q` and `r`. */
  lemma SplitDigit(q: int, r: int)
    requires 0 <= q && 0 <= r < 64
    ensures (q * 64 + r) / 64 == q && (q * 64 + r) % 64 == r
    ensures (q * 64 + r) / 4096 == q / 64 && (q * 64 + r) / 262144 == q / 4096
  {
  }

  /** `from_utf8` accepts only byte forms of strings: what it decodes encodes back to the input. */
  lemma {:induction false} EncodeDecode(b: seq<byte>)
    requires Decode(b).Some?
    ensures Encode(Decode(b).value) == b
    decreases |b|
  {
    if b != [] {
      DecodeCons(b);
      var c, n := DecodeChar(b).value.0, DecodeChar(b).value.1;
      var t := Decode(b[n..]).value;
      EncodeDecodeChar(b);
      EncodeDecode(b[n..]);
      EncodeCons(c, t);
      SliceJoin(b, n);
    }
  }

  lemma SliceJoin(b: seq<byte>, n: nat)
    requires n <= |b|
    ensures b[..n] + b[n..] == b
  {
  }

  lemma DecodeCons(b: seq<byte>)
    requires b != [] && Decode(b).Some?
    ensures DecodeChar(b).Some?
    ensures var (c, n) := DecodeChar(b).value;
      Decode(b[n..]).Some? && Decode(b).value == [c] + Decode(b[n..]).value
  {
  }

  lemma EncodeCons(c: char, t: string)
    ensures Encode([c] + t) == EncodeChar(c) + Encode(t)
  {
    assert ([c] + t)[0] == c && ([c] + t)[1..] == t;
  }

  /** `from_utf8` is the inverse of `as_bytes`: it decodes exactly the byte forms of texts. */
  lemma DecodeInverse(b: seq<byte>)
    ensures Decode(b).None? <==> forall s :: b != Encode(s)
    ensures forall s :: b == Encode(s) ==> Decode(b) == Some(s)
  {
    forall s | b == Encode(s)
      ensures Decode(b) == Some(s)
    {
      DecodeEncode(s);
    }
    if Decode(b).Some? {
      EncodeDecode(b);
    }
  }
}
