/** UTF-8 as Rust strings use it: the well-formed byte sequences of Table 3-7
    of the Unicode Standard (section 3.9), the decoder behind
    `String::from_utf8`, and the encoder whose byte lengths `char_indices`
    reports as offsets. */
module Utf8 {
  import opened Wrappers

  type Byte = b: int | 0 <= b < 0x100

  predicate Cont(b: Byte) {
    0x80 <= b <= 0xBF
  }

  /** The number of bytes `c` takes in UTF-8. */
  function Width(c: char): (n: nat)
    ensures 1 <= n <= 4
  {
    if c as int < 0x80 then 1
    else if c as int < 0x800 then 2
    else if c as int < 0x10000 then 3
    else 4
  }

  /** The UTF-8 encoding of one character. */
  function EncodeChar(c: char): (r: seq<Byte>)
    ensures |r| == Width(c)
  {
    var cp := c as int;
    var t := cp / 64;
    var u := t / 64;
    if cp < 0x80 then [cp]
    else if cp < 0x800 then [0xC0 + t, 0x80 + cp % 64]
    else if cp < 0x10000 then [0xE0 + u, 0x80 + t % 64, 0x80 + cp % 64]
    else [0xF0 + u / 64, 0x80 + u % 64, 0x80 + t % 64, 0x80 + cp % 64]
  }

  function Encode(s: string): (r: seq<Byte>)
    ensures |r| >= |s|
    decreases |s|
  {
    if s == [] then [] else EncodeChar(s[0]) + Encode(s[1..])
  }

  /** The length of the well-formed sequence at the head of `b`, or 0 when
      the head is not well formed (Table 3-7). */
  function LeadLength(b: seq<Byte>): (n: nat)
    ensures n <= 4 && n <= |b|
    ensures b != [] && b[0] < 0x80 ==> n == 1
  {
    if |b| == 0 then 0
    else if b[0] <= 0x7F then 1
    else if 0xC2 <= b[0] <= 0xDF then
      (if |b| >= 2 && Cont(b[1]) then 2 else 0)
    else if 0xE0 <= b[0] <= 0xEF then
      (if |b| >= 3 && Cont(b[2]) &&
          (if b[0] == 0xE0 then 0xA0 <= b[1] <= 0xBF
           else if b[0] == 0xED then 0x80 <= b[1] <= 0x9F
           else Cont(b[1]))
       then 3 else 0)
    else if 0xF0 <= b[0] <= 0xF4 then
      (if |b| >= 4 && Cont(b[2]) && Cont(b[3]) &&
          (if b[0] == 0xF0 then 0x90 <= b[1] <= 0xBF
           else if b[0] == 0xF4 then 0x80 <= b[1] <= 0x8F
           else Cont(b[1]))
       then 4 else 0)
    else 0
  }

  /** Appends the six payload bits of continuation byte `b` to `acc`. */
  function Payload(acc: int, b: Byte): int {
    acc * 64 + (b as int - 0x80)
  }

  /** The scalar value the well-formed head of `b` encodes: never a
      surrogate, never above U+10FFFF, and never encoded in more bytes than
      it needs (no overlong forms). */
  function CodePoint(b: seq<Byte>): (cp: int)
    requires LeadLength(b) > 0
    ensures 0 <= cp < 0xD800 || 0xE000 <= cp < 0x110000
    ensures Width(cp as char) == LeadLength(b)
  {
    var n := LeadLength(b);
    if n == 1 then b[0] as int
    else if n == 2 then Payload(b[0] as int - 0xC0, b[1])
    else if n == 3 then Payload(Payload(b[0] as int - 0xE0, b[1]), b[2])
    else Payload(Payload(Payload(b[0] as int - 0xF0, b[1]), b[2]), b[3])
  }

  /** `String::from_utf8`: the characters, or `None` when `b` is not UTF-8. */
  function FromUtf8(b: seq<Byte>): (r: Option<string>)
    ensures r.Some? ==> |r.value| <= |b|
    decreases |b|
  {
    if b == [] then Some([])
    else
      var n := LeadLength(b);
      if n == 0 then None
      else match FromUtf8(b[n..])
        case None => None
        case Some(rest) => Some([CodePoint(b) as char] + rest)
  }

  // ---------------------------------------------------------------------
  // Lemmas

  /** Dividing by 64 undoes `Payload`. */
  lemma Div64(x: int, q: int, r: int)
    requires x == 64 * q + r && 0 <= r < 64
    ensures x / 64 == q && x % 64 == r
  {
  }

  lemma DecodeEncode2(cp: int, b: seq<Byte>)
    requires 0x80 <= cp < 0x800
    requires |b| >= 2 && b[0] == 0xC0 + cp / 64 && b[1] == 0x80 + cp % 64
    ensures LeadLength(b) == 2 && Payload(b[0] as int - 0xC0, b[1]) == cp
  {
  }

  lemma DecodeEncode3(cp: int, b: seq<Byte>)
    requires 0x800 <= cp < 0x10000 && !(0xD800 <= cp < 0xE000)
    requires |b| >= 3 && b[0] == 0xE0 + (cp / 64) / 64 && b[1] == 0x80 + (cp / 64) % 64 && b[2] == 0x80 + cp % 64
    ensures LeadLength(b) == 3 && Payload(Payload(b[0] as int - 0xE0, b[1]), b[2]) == cp
  {
    var t := cp / 64;
    assert Payload(b[0] as int - 0xE0, b[1]) == t;
  }

  lemma DecodeEncode4(cp: int, b: seq<Byte>)
    requires 0x10000 <= cp < 0x110000
    requires |b| >= 4 && b[0] == 0xF0 + ((cp / 64) / 64) / 64 && b[1] == 0x80 + ((cp / 64) / 64) % 64
    requires b[2] == 0x80 + (cp / 64) % 64 && b[3] == 0x80 + cp % 64
    ensures LeadLength(b) == 4 && Payload(Payload(Payload(b[0] as int - 0xF0, b[1]), b[2]), b[3]) == cp
  {
    var t := cp / 64;
    var u := t / 64;
    assert Payload(b[0] as int - 0xF0, b[1]) == u;
    assert Payload(u, b[2]) == t;
  }

  /** Encoding one character and reading it back gives the character, and the
      decoder consumes exactly its bytes, whatever follows. */
  lemma DecodeEncodeChar(c: char, rest: seq<Byte>)
    ensures LeadLength(EncodeChar(c) + rest) == Width(c)
    ensures CodePoint(EncodeChar(c) + rest) == c as int
  {
    var cp := c as int;
    var b := EncodeChar(c) + rest;
    if cp < 0x80 {
    } else if cp < 0x800 {
      DecodeEncode2(cp, b);
    } else if cp < 0x10000 {
      DecodeEncode3(cp, b);
    } else {
      DecodeEncode4(cp, b);
    }
  }

  /** Decoding an encoded string gives the string back. */
  lemma {:induction false} FromUtf8Encode(s: string)
    ensures FromUtf8(Encode(s)) == Some(s)
    decreases |s|
  {
    if s != [] {
      var b := Encode(s);
      assert b == EncodeChar(s[0]) + Encode(s[1..]);
      DecodeEncodeChar(s[0], Encode(s[1..]));
      assert b[Width(s[0])..] == Encode(s[1..]);
      FromUtf8Encode(s[1..]);
      assert s == [s[0]] + s[1..];
    }
  }

  /** The well-formed head of `b` is the encoding of the character it decodes to. */
  lemma EncodeCodePoint(b: seq<Byte>)
    requires LeadLength(b) > 0
    ensures EncodeChar(CodePoint(b) as char) == b[..LeadLength(b)]
  {
    var n := LeadLength(b);
    var cp := CodePoint(b);
    if n == 2 {
      Div64(cp, b[0] as int - 0xC0, b[1] as int - 0x80);
    } else if n == 3 {
      var t := Payload(b[0] as int - 0xE0, b[1]);
      Div64(cp, t, b[2] as int - 0x80);
      Div64(t, b[0] as int - 0xE0, b[1] as int - 0x80);
    } else if n == 4 {
      var u := Payload(b[0] as int - 0xF0, b[1]);
      var t := Payload(u, b[2]);
      Div64(cp, t, b[3] as int - 0x80);
      Div64(t, u, b[2] as int - 0x80);
      Div64(u, b[0] as int - 0xF0, b[1] as int - 0x80);
    }
  }

  /** Every byte sequence `String::from_utf8` accepts is the encoding of what
      it returns: decoding loses nothing. */
  lemma {:induction false} EncodeFromUtf8(b: seq<Byte>)
    requires FromUtf8(b).Some?
    ensures Encode(FromUtf8(b).value) == b
    decreases |b|
  {
    if b != [] {
      var n := LeadLength(b);
      FromUtf8Head(b);
      var rest := FromUtf8(b[n..]).value;
      var c := CodePoint(b) as char;
      EncodeFromUtf8(b[n..]);
      EncodeCodePoint(b);
      EncodeCons(c, rest, b, n);
    }
  }

  /** A decoded non-empty input is its first character followed by the
      decoding of the bytes after that character. */
  lemma FromUtf8Head(b: seq<Byte>)
    requires FromUtf8(b).Some? && b != []
    ensures LeadLength(b) > 0 && FromUtf8(b[LeadLength(b)..]).Some?
    ensures FromUtf8(b).value == [CodePoint(b) as char] + FromUtf8(b[LeadLength(b)..]).value
  {
  }

  /** A character encoded as the head of `b` followed by a string encoded
      as the rest is an encoding of all of `b`. */
  lemma EncodeCons(c: char, s: string, b: seq<Byte>, n: nat)
    requires n <= |b| && EncodeChar(c) == b[..n] && Encode(s) == b[n..]
    ensures Encode([c] + s) == b
  {
    assert ([c] + s)[1..] == s;
    assert b == b[..n] + b[n..];
  }

  /** The first character of a decoded string is the first byte when that
      byte is ASCII, and is not ASCII otherwise. */
  lemma FirstChar(b: seq<Byte>)
    requires FromUtf8(b).Some? && b != []
    ensures FromUtf8(b).value != []
    ensures b[0] < 0x80 ==> FromUtf8(b).value[0] as int == b[0]
    ensures b[0] >= 0x80 ==> FromUtf8(b).value[0] as int >= 0x80
  {
  }
}
