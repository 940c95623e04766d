/** UTF-8 encoding of a string, as `QString::toUtf8` produces it for the
    form-data bodies of the login request, with the decoder that inverts it.

    A Dafny `char` is a Unicode scalar value (never a lone surrogate), so
    every character has exactly one encoding of one to four bytes. */
module Utf8 {
  import opened Wrappers

  type Byte = b: int | 0 <= b < 0x100

  /** A continuation byte, `10xxxxxx`. */
  predicate IsContinuation(b: Byte) { 0x80 <= b < 0xC0 }

  /** The encoding of one character. */
  function EncodeChar(c: char): (bs: seq<Byte>)
    ensures 1 <= |bs| <= 4
    ensures (|bs| == 1) == (c as int < 0x80)
    ensures forall i :: 1 <= i < |bs| ==> IsContinuation(bs[i])
  {
    var cp := c as int;
    if cp < 0x80 then
      [cp]
    else if cp < 0x800 then
      [0xC0 + cp / 0x40, 0x80 + cp % 0x40]
    else if cp < 0x1_0000 then
      [0xE0 + cp / 0x1000, 0x80 + cp / 0x40 % 0x40, 0x80 + cp % 0x40]
    else
      [0xF0 + cp / 0x4_0000, 0x80 + cp / 0x1000 % 0x40, 0x80 + cp / 0x40 % 0x40, 0x80 + cp % 0x40]
  }

  /** The encoding of a string: the encodings of its characters, in order. */
  function Encode(s: string): (bs: seq<Byte>)
    ensures |s| <= |bs| <= 4 * |s|
  {
    if s == [] then [] else EncodeChar(s[0]) + Encode(s[1..])
  }

  /** The scalar value `v`, if it is one. */
  function ToChar(v: int): Option<char> {
    if 0 <= v < 0xD800 || 0xE000 <= v < 0x11_0000 then Some(v as char) else None
  }

  /** The scalar value `v`, if it is one and needs at least `least`
      bytes; a shorter (overlong) form of it is rejected. */
  function ToCharAtLeast(v: int, least: int): Option<char> {
    if v < least then None else ToChar(v)
  }

  /** The first character of `bs` and the number of bytes it takes, if `bs`
      starts with a well-formed, shortest-form sequence. */
  function DecodeChar(bs: seq<Byte>): Option<(char, nat)>
    requires |bs| > 0
  {
    var b0 := bs[0] as int;
    if b0 < 0x80 then
      Some((b0 as char, 1))
    else if 0xC0 <= b0 < 0xE0 && |bs| >= 2 && IsContinuation(bs[1]) then
      match ToCharAtLeast((b0 - 0xC0) * 0x40 + (bs[1] as int - 0x80), 0x80)
      case Some(c) => Some((c, 2))
      case None => None
    else if 0xE0 <= b0 < 0xF0 && |bs| >= 3 && IsContinuation(bs[1]) && IsContinuation(bs[2]) then
      match ToCharAtLeast((b0 - 0xE0) * 0x1000 + (bs[1] as int - 0x80) * 0x40 + (bs[2] as int - 0x80), 0x800)
      case Some(c) => Some((c, 3))
      case None => None
    else if 0xF0 <= b0 < 0xF8 && |bs| >= 4 && IsContinuation(bs[1]) && IsContinuation(bs[2]) && IsContinuation(bs[3]) then
      match ToCharAtLeast((b0 - 0xF0) * 0x4_0000 + (bs[1] as int - 0x80) * 0x1000 + (bs[2] as int - 0x80) * 0x40 + (bs[3] as int - 0x80), 0x1_0000)
      case Some(c) => Some((c, 4))
      case None => None
    else
      None
  }

  /** The string `bs` encodes, if it is well-formed. */
  function Decode(bs: seq<Byte>): Option<string>
    decreases |bs|
  {
    if bs == [] then Some("")
    else
      match DecodeChar(bs)
      case None => None
      case Some((c, n)) =>
        if n <= |bs| then
          match Decode(bs[n..])
          case None => None
          case Some(rest) => Some([c] + rest)
        else None
  }

  lemma DecodeTwo(c: char, rest: seq<Byte>)
    requires 0x80 <= c as int < 0x800
    ensures DecodeChar(EncodeChar(c) + rest) == Some((c, 2))
  {
    var cp := c as int;
    var hi, lo := cp / 0x40, cp % 0x40;
    assert EncodeChar(c) == [0xC0 + hi, 0x80 + lo];
    assert hi * 0x40 + lo == cp;
    assert ToCharAtLeast(cp, 0x80) == Some(c);
  }

  lemma DecodeThree(c: char, rest: seq<Byte>)
    requires 0x800 <= c as int < 0x1_0000
    ensures DecodeChar(EncodeChar(c) + rest) == Some((c, 3))
  {
    var cp := c as int;
    var hi, mid, lo := cp / 0x1000, cp / 0x40 % 0x40, cp % 0x40;
    assert EncodeChar(c) == [0xE0 + hi, 0x80 + mid, 0x80 + lo];
    assert cp / 0x40 == hi * 0x40 + mid;
    assert hi * 0x1000 + mid * 0x40 + lo == cp;
    assert ToCharAtLeast(cp, 0x800) == Some(c);
  }

  lemma DecodeFour(c: char, rest: seq<Byte>)
    requires 0x1_0000 <= c as int
    ensures DecodeChar(EncodeChar(c) + rest) == Some((c, 4))
  {
    var cp := c as int;
    var top, hi, mid, lo := cp / 0x4_0000, cp / 0x1000 % 0x40, cp / 0x40 % 0x40, cp % 0x40;
    assert EncodeChar(c) == [0xF0 + top, 0x80 + hi, 0x80 + mid, 0x80 + lo];
    assert cp / 0x1000 == top * 0x40 + hi;
    assert cp / 0x40 == (top * 0x40 + hi) * 0x40 + mid;
    assert top * 0x4_0000 + hi * 0x1000 + mid * 0x40 + lo == cp;
    var bs := EncodeChar(c) + rest;
    assert bs[0] as int == 0xF0 + top && bs[1] as int == 0x80 + hi;
    assert bs[2] as int == 0x80 + mid && bs[3] as int == 0x80 + lo;
    assert (bs[0] as int - 0xF0) * 0x4_0000 + (bs[1] as int - 0x80) * 0x1000 + (bs[2] as int - 0x80) * 0x40 + (bs[3] as int - 0x80) == cp;
    assert ToCharAtLeast(cp, 0x1_0000) == Some(c);
  }

  lemma DecodeEncodeChar(c: char, rest: seq<Byte>)
    ensures DecodeChar(EncodeChar(c) + rest) == Some((c, |EncodeChar(c)|))
  {
    if c as int < 0x80 {
    } else if c as int < 0x800 {
      DecodeTwo(c, rest);
    } else if c as int < 0x1_0000 {
      DecodeThree(c, rest);
    } else {
      DecodeFour(c, rest);
    }
  }

  /** Decoding inverts encoding: the bytes of `toUtf8` give back the string. */
  lemma {:induction false} DecodeEncode(s: string)
    ensures Decode(Encode(s)) == Some(s)
  {
    if s != [] {
      var head := EncodeChar(s[0]);
      var tail := Encode(s[1..]);
      DecodeEncodeChar(s[0], tail);
      assert (head + tail)[|head|..] == tail;
      DecodeEncode(s[1..]);
      assert [s[0]] + s[1..] == s;
    }
  }

  lemma EncodeTwo(bs: seq<Byte>, c: char)
    requires |bs| >= 2 && 0xC0 <= bs[0] < 0xE0 && IsContinuation(bs[1])
    requires ToCharAtLeast((bs[0] as int - 0xC0) * 0x40 + (bs[1] as int - 0x80), 0x80) == Some(c)
    ensures EncodeChar(c) == bs[..2]
  {
    var hi, lo := bs[0] as int - 0xC0, bs[1] as int - 0x80;
    var cp := hi * 0x40 + lo;
    assert c as int == cp;
    assert cp / 0x40 == hi && cp % 0x40 == lo;
  }

  lemma EncodeThree(bs: seq<Byte>, c: char)
    requires |bs| >= 3 && 0xE0 <= bs[0] < 0xF0 && IsContinuation(bs[1]) && IsContinuation(bs[2])
    requires ToCharAtLeast((bs[0] as int - 0xE0) * 0x1000 + (bs[1] as int - 0x80) * 0x40 + (bs[2] as int - 0x80), 0x800) == Some(c)
    ensures EncodeChar(c) == bs[..3]
  {
    var hi, mid, lo := bs[0] as int - 0xE0, bs[1] as int - 0x80, bs[2] as int - 0x80;
    var cp := hi * 0x1000 + mid * 0x40 + lo;
    assert c as int == cp;
    assert cp / 0x40 == hi * 0x40 + mid && cp % 0x40 == lo;
    assert cp / 0x1000 == hi && cp / 0x40 % 0x40 == mid;
  }

  lemma EncodeFour(bs: seq<Byte>, c: char)
    requires |bs| >= 4 && 0xF0 <= bs[0] < 0xF8 && IsContinuation(bs[1]) && IsContinuation(bs[2]) && IsContinuation(bs[3])
    requires ToCharAtLeast((bs[0] as int - 0xF0) * 0x4_0000 + (bs[1] as int - 0x80) * 0x1000
                           + (bs[2] as int - 0x80) * 0x40 + (bs[3] as int - 0x80), 0x1_0000) == Some(c)
    ensures EncodeChar(c) == bs[..4]
  {
    var top, hi, mid, lo := bs[0] as int - 0xF0, bs[1] as int - 0x80, bs[2] as int - 0x80, bs[3] as int - 0x80;
    var cp := top * 0x4_0000 + hi * 0x1000 + mid * 0x40 + lo;
    assert c as int == cp;
    assert cp / 0x40 == (top * 0x40 + hi) * 0x40 + mid && cp % 0x40 == lo;
    assert cp / 0x1000 == top * 0x40 + hi && cp / 0x40 % 0x40 == mid;
    assert cp / 0x4_0000 == top && cp / 0x1000 % 0x40 == hi;
  }

  /** The first character decoded from `bs` re-encodes to the bytes it
      was decoded from. */
  lemma EncodeDecodeChar(bs: seq<Byte>)
    requires |bs| > 0 && DecodeChar(bs).Some?
    ensures DecodeChar(bs).value.1 <= |bs|
    ensures EncodeChar(DecodeChar(bs).value.0) == bs[..DecodeChar(bs).value.1]
  {
    var c := DecodeChar(bs).value.0;
    var b0 := bs[0] as int;
    if b0 < 0x80 {
    } else if 0xC0 <= b0 < 0xE0 && |bs| >= 2 && IsContinuation(bs[1]) {
      EncodeTwo(bs, c);
    } else if 0xE0 <= b0 < 0xF0 && |bs| >= 3 && IsContinuation(bs[1]) && IsContinuation(bs[2]) {
      EncodeThree(bs, c);
    } else {
      EncodeFour(bs, c);
    }
  }

  /** A successful `Decode` of non-empty bytes: the first character, then
      the decoding of the bytes after it. */
  lemma DecodeFirst(bs: seq<Byte>, s: string)
    requires bs != [] && Decode(bs) == Some(s)
    ensures DecodeChar(bs).Some? && DecodeChar(bs).value.1 <= |bs|
    ensures Decode(bs[DecodeChar(bs).value.1..]).Some?
    ensures s == [DecodeChar(bs).value.0] + Decode(bs[DecodeChar(bs).value.1..]).value
  {
  }

  /** Bytes that start with the encoding of `c` and go on with the
      encoding of `rest` are the encoding of `[c] + rest`. */
  lemma EncodeFirst(bs: seq<Byte>, n: nat, c: char, rest: string)
    requires n <= |bs| && EncodeChar(c) == bs[..n] && Encode(rest) == bs[n..]
    ensures Encode([c] + rest) == bs
  {
    assert ([c] + rest)[0] == c && ([c] + rest)[1..] == rest;
    assert bs == bs[..n] + bs[n..];
  }

  /** Encoding inverts decoding: the only bytes that decode to `s` are its
      encoding, so a well-formed body determines its bytes. */
  lemma {:induction false} EncodeDecode(bs: seq<Byte>, s: string)
    requires Decode(bs) == Some(s)
    ensures Encode(s) == bs
    decreases |bs|
  {
    if bs != [] {
      DecodeFirst(bs, s);
      var c := DecodeChar(bs).value.0;
      var n := DecodeChar(bs).value.1;
      var rest := Decode(bs[n..]).value;
      EncodeDecodeChar(bs);
      EncodeDecode(bs[n..], rest);
      EncodeFirst(bs, n, c, rest);
    }
  }

  /** The overlong two-byte form of NUL is not UTF-8. */
  lemma OverlongRejected()
    ensures Decode([0xC0, 0x80]) == None
  {
  }

  /** Two strings with the same encoding are equal. */
  lemma EncodeInjective(s: string, t: string)
    requires Encode(s) == Encode(t)
    ensures s == t
  {
    DecodeEncode(s);
    DecodeEncode(t);
  }

  /** An ASCII string encodes to its own character codes, byte for byte. */
  lemma {:induction false} EncodeAscii(s: string)
    requires forall i :: 0 <= i < |s| ==> s[i] as int < 0x80
    ensures |Encode(s)| == |s|
    ensures forall i :: 0 <= i < |s| ==> Encode(s)[i] == s[i] as int
  {
    if s != [] {
      EncodeAscii(s[1..]);
      assert Encode(s) == [s[0] as int] + Encode(s[1..]);
    }
  }
}
