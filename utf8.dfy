// UTF-8 as the audit script uses it: `str.encode('utf-8')` before hashing a
// key, and the strict `bytes.decode()` applied to every key a master
// returns.

module Utf8 {
  import opened Seqs

  newtype byte = b: int | 0 <= b < 256

  datatype Option<T> = None | Some(value: T)

  /** The UTF-8 bytes of one Unicode scalar value (shortest form). */
  function EncodeChar(c: char): (r: seq<byte>)
    ensures 1 <= |r| <= 4
    ensures |r| == 1 <==> c as int < 0x80
    ensures |r| == 1 ==> r[0] as int == c as int
  {
    var cp := c as int;
    if cp < 0x80 then
      [cp as byte]
    else if cp < 0x800 then
      [(0xC0 + cp / 64) as byte, (0x80 + cp % 64) as byte]
    else if cp < 0x10000 then
      [(0xE0 + cp / 4096) as byte, (0x80 + cp / 64 % 64) as byte, (0x80 + cp % 64) as byte]
    else
      [(0xF0 + cp / 262144) as byte, (0x80 + cp / 4096 % 64) as byte,
       (0x80 + cp / 64 % 64) as byte, (0x80 + cp % 64) as byte]
  }

  /** `s.encode('utf-8')`: the characters' encodings, one after the other. */
  function Encode(s: string): (r: seq<byte>)
    ensures |s| <= |r| <= 4 * |s|
  {
    if s == [] then [] else EncodeChar(s[0]) + Encode(s[1..])
  }

  predicate IsContinuation(b: byte) {
    0x80 <= b < 0xC0
  }

  /** The scalar value that a well-formed UTF-8 sequence at the head of `bs`
      stands for, with the number of bytes it takes; None when the head is
      not well formed (the table of well-formed byte sequences in section
      3.9 of the Unicode Standard, which a strict decoder enforces: no
      overlong forms, no surrogates, nothing above U+10FFFF). */
  function DecodeFirst(bs: seq<byte>): (r: Option<(char, nat)>)
    ensures r.Some? ==> 1 <= r.value.1 <= 4 && r.value.1 <= |bs|
  {
    if bs == [] then None
    else
      var b0 := bs[0] as int;
      if b0 < 0x80 then
        Some((b0 as char, 1))
      else if 0xC2 <= b0 <= 0xDF then
        if 2 <= |bs| && IsContinuation(bs[1]) then
          Some((((b0 - 0xC0) * 64 + (bs[1] as int - 0x80)) as char, 2))
        else None
      else if 0xE0 <= b0 <= 0xEF then
        var lo := if b0 == 0xE0 then 0xA0 else 0x80;
        var hi := if b0 == 0xED then 0x9F else 0xBF;
        if 3 <= |bs| && lo <= bs[1] as int <= hi && IsContinuation(bs[2]) then
          Some((((b0 - 0xE0) * 4096 + (bs[1] as int - 0x80) * 64 + (bs[2] as int - 0x80)) as char, 3))
        else None
      else if 0xF0 <= b0 <= 0xF4 then
        var lo := if b0 == 0xF0 then 0x90 else 0x80;
        var hi := if b0 == 0xF4 then 0x8F else 0xBF;
        if 4 <= |bs| && lo <= bs[1] as int <= hi && IsContinuation(bs[2]) && IsContinuation(bs[3]) then
          Some((((b0 - 0xF0) * 262144 + (bs[1] as int - 0x80) * 4096
                 + (bs[2] as int - 0x80) * 64 + (bs[3] as int - 0x80)) as char, 4))
        else None
      else None
  }

  /** Strict `bs.decode()`: None where Python raises UnicodeDecodeError. */
  function Decode(bs: seq<byte>): (r: Option<string>)
    ensures r.Some? ==> |r.value| <= |bs|
    decreases |bs|
  {
    if bs == [] then Some([])
    else match DecodeFirst(bs)
      case None => None
      case Some((c, n)) =>
        match Decode(bs[n..])
        case None => None
        case Some(rest) => Some([c] + rest)
  }

  lemma DecodeTwoBytes(c: char, tail: seq<byte>)
    requires 0x80 <= c as int < 0x800
    ensures DecodeFirst(EncodeChar(c) + tail) == Some((c, 2))
  {
    var cp := c as int;
    var b0, b1 := 0xC0 + cp / 64, 0x80 + cp % 64;
    var e := EncodeChar(c) + tail;
    assert |e| >= 2 && e[0] == b0 as byte && e[1] == b1 as byte;
    assert (b0 - 0xC0) * 64 + (b1 - 0x80) == cp;
  }

  lemma DecodeThreeBytes(c: char, tail: seq<byte>)
    requires 0x800 <= c as int < 0x10000
    ensures DecodeFirst(EncodeChar(c) + tail) == Some((c, 3))
  {
    var cp := c as int;
    var q := cp / 64;
    var b0, b1, b2 := 0xE0 + cp / 4096, 0x80 + q % 64, 0x80 + cp % 64;
    var e := EncodeChar(c) + tail;
    assert |e| >= 3 && e[0] == b0 as byte && e[1] == b1 as byte && e[2] == b2 as byte;
    assert q / 64 == cp / 4096;
    assert (b0 - 0xE0) * 4096 + (b1 - 0x80) * 64 + (b2 - 0x80) == cp;
    assert b0 == 0xE0 ==> 0xA0 <= b1;
    assert b0 == 0xED ==> b1 <= 0x9F;
  }

  lemma DecodeFourBytes(c: char, tail: seq<byte>)
    requires 0x10000 <= c as int
    ensures DecodeFirst(EncodeChar(c) + tail) == Some((c, 4))
  {
    var cp := c as int;
    var q := cp / 64;
    var q2 := q / 64;
    assert q2 == cp / 4096;
    assert q2 / 64 == cp / 262144;
    var b0, b1, b2, b3 := 0xF0 + cp / 262144, 0x80 + q2 % 64, 0x80 + q % 64, 0x80 + cp % 64;
    var e := EncodeChar(c) + tail;
    assert |e| >= 4 && e[0] == b0 as byte && e[1] == b1 as byte && e[2] == b2 as byte && e[3] == b3 as byte;
    assert (b0 - 0xF0) * 262144 + (b1 - 0x80) * 4096 + (b2 - 0x80) * 64 + (b3 - 0x80) == cp;
    assert b0 == 0xF0 ==> 0x90 <= b1;
    assert b0 == 0xF4 ==> b1 <= 0x8F;
  }

  /** Every character's encoding is decoded back to that character, whatever follows it. */
  lemma DecodeFirstEncodeChar(c: char, tail: seq<byte>)
    ensures DecodeFirst(EncodeChar(c) + tail) == Some((c, |EncodeChar(c)|))
  {
    var cp := c as int;
    if cp < 0x80 {
    } else if cp < 0x800 {
      DecodeTwoBytes(c, tail);
    } else if cp < 0x10000 {
      DecodeThreeBytes(c, tail);
    } else {
      DecodeFourBytes(c, tail);
    }
  }

  /** Decoding what `Encode` produced gives back the string: the round trip
      `s.encode('utf-8').decode() == s`. */
  lemma {:induction false} DecodeEncode(s: string)
    ensures Decode(Encode(s)) == Some(s)
  {
    if s != [] {
      var e := EncodeChar(s[0]);
      DecodeFirstEncodeChar(s[0], Encode(s[1..]));
      assert (e + Encode(s[1..]))[|e|..] == Encode(s[1..]);
      DecodeEncode(s[1..]);
      assert [s[0]] + s[1..] == s;
    }
  }

  lemma DivMod64(x: int, a: int, r: int)
    requires 0 <= r < 64 && x == a * 64 + r
    ensures x / 64 == a && x % 64 == r
  {
  }

  lemma EncodeTwo(b0: byte, b1: byte)
    requires 0xC2 <= b0 <= 0xDF && IsContinuation(b1)
    ensures EncodeChar(((b0 as int - 0xC0) * 64 + (b1 as int - 0x80)) as char) == [b0, b1]
  {
    var cp := (b0 as int - 0xC0) * 64 + (b1 as int - 0x80);
    DivMod64(cp, b0 as int - 0xC0, b1 as int - 0x80);
  }

  lemma EncodeThree(b0: byte, b1: byte, b2: byte)
    requires 0xE0 <= b0 <= 0xEF && IsContinuation(b2)
    requires (if b0 == 0xE0 then 0xA0 else 0x80) <= b1 as int <= (if b0 == 0xED then 0x9F else 0xBF)
    ensures EncodeChar(((b0 as int - 0xE0) * 4096 + (b1 as int - 0x80) * 64 + (b2 as int - 0x80)) as char) == [b0, b1, b2]
  {
    var cp := (b0 as int - 0xE0) * 4096 + (b1 as int - 0x80) * 64 + (b2 as int - 0x80);
    var q := (b0 as int - 0xE0) * 64 + (b1 as int - 0x80);
    DivMod64(cp, q, b2 as int - 0x80);
    DivMod64(q, b0 as int - 0xE0, b1 as int - 0x80);
    assert cp / 4096 == q / 64;
  }

  lemma EncodeFour(b0: byte, b1: byte, b2: byte, b3: byte)
    requires 0xF0 <= b0 <= 0xF4 && IsContinuation(b2) && IsContinuation(b3)
    requires (if b0 == 0xF0 then 0x90 else 0x80) <= b1 as int <= (if b0 == 0xF4 then 0x8F else 0xBF)
    ensures EncodeChar(((b0 as int - 0xF0) * 262144 + (b1 as int - 0x80) * 4096
                        + (b2 as int - 0x80) * 64 + (b3 as int - 0x80)) as char) == [b0, b1, b2, b3]
  {
    var cp := (b0 as int - 0xF0) * 262144 + (b1 as int - 0x80) * 4096 + (b2 as int - 0x80) * 64 + (b3 as int - 0x80);
    var q2 := (b0 as int - 0xF0) * 64 + (b1 as int - 0x80);
    var q := q2 * 64 + (b2 as int - 0x80);
    DivMod64(cp, q, b3 as int - 0x80);
    DivMod64(q, q2, b2 as int - 0x80);
    DivMod64(q2, b0 as int - 0xF0, b1 as int - 0x80);
    assert cp / 4096 == q2;
    assert cp / 262144 == q2 / 64;
  }

  /** What `DecodeFirst` accepts is exactly the encoding of the character it returns. */
  lemma EncodeCharDecodeFirst(bs: seq<byte>)
    requires DecodeFirst(bs).Some?
    ensures EncodeChar(DecodeFirst(bs).value.0) == bs[..DecodeFirst(bs).value.1]
  {
    var n := DecodeFirst(bs).value.1;
    if n == 1 {
      Take1(bs);
    } else if n == 2 {
      EncodeTwo(bs[0], bs[1]);
      Take2(bs);
    } else if n == 3 {
      EncodeThree(bs[0], bs[1], bs[2]);
      Take3(bs);
    } else {
      EncodeFour(bs[0], bs[1], bs[2], bs[3]);
      Take4(bs);
    }
  }

  /** A non-empty input decodes when its first character does and the
      rest decodes after it. */
  lemma DecodeStep(bs: seq<byte>)
    requires bs != [] && Decode(bs).Some?
    ensures DecodeFirst(bs).Some?
    ensures Decode(bs[DecodeFirst(bs).value.1..]).Some?
    ensures Decode(bs).value == [DecodeFirst(bs).value.0] + Decode(bs[DecodeFirst(bs).value.1..]).value
  {
  }

  lemma EncodeCons(c: char, rest: string, bs: seq<byte>, n: nat)
    requires n <= |bs| && EncodeChar(c) == bs[..n] && Encode(rest) == bs[n..]
    ensures Encode([c] + rest) == bs
  {
    var s := [c] + rest;
    assert s[0] == c && s[1..] == rest;
    assert bs == bs[..n] + bs[n..];
  }

  /** The strict decoder accepts only what `Encode` produces: together with
      `DecodeEncode`, decoding and encoding are inverse bijections between
      strings and well-formed UTF-8. */
  lemma {:induction false} EncodeDecode(bs: seq<byte>)
    requires Decode(bs).Some?
    ensures Encode(Decode(bs).value) == bs
    decreases |bs|
  {
    if bs != [] {
      DecodeStep(bs);
      var (c, n) := DecodeFirst(bs).value;
      EncodeCharDecodeFirst(bs);
      EncodeDecode(bs[n..]);
      EncodeCons(c, Decode(bs[n..]).value, bs, n);
    }
  }

  /** Encoding is applied character by character, so it distributes over concatenation. */
  lemma {:induction false} EncodeAppend(a: string, b: string)
    ensures Encode(a + b) == Encode(a) + Encode(b)
  {
    if a != [] {
      assert (a + b)[0] == a[0] && (a + b)[1..] == a[1..] + b;
      EncodeAppend(a[1..], b);
      assert Encode(a + b) == EncodeChar(a[0]) + (Encode(a[1..]) + Encode(b));
    } else {
      assert a + b == b;
    }
  }

  predicate IsAscii(s: string) {
    forall i :: 0 <= i < |s| ==> s[i] as int < 0x80
  }

  /** An ASCII string encodes to its own character codes, one byte each. */
  lemma {:induction false} EncodeAscii(s: string)
    requires IsAscii(s)
    ensures |Encode(s)| == |s|
    ensures forall i :: 0 <= i < |s| ==> Encode(s)[i] as int == s[i] as int
  {
    if s != [] {
      EncodeAscii(s[1..]);
    }
  }
}
