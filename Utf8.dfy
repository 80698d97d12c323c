/**
  UTF-8 as defined in RFC 3629. Section 4 of the RFC gives the syntax of a
  well-formed byte sequence (UTF8-octets = *( UTF8-char )); section 3 gives the
  bit layout that maps a Unicode scalar value to one to four octets.

  A reply's bytes become text through Rust's `std::str::from_utf8`, which accepts
  exactly the sequences of this syntax (no overlong forms, no surrogates, nothing
  above U+10FFFF); and text becomes an argument through `str::as_bytes`, its
  UTF-8 encoding. `Decode` and `Encode` model the two.
*/
module Utf8 {
  import opened Options

  newtype uint8 = x: int | 0 <= x < 0x100

  /** UTF8-tail = %x80-BF */
  predicate IsTail(b: uint8) {
    0x80 <= b <= 0xBF
  }

  /** One UTF8-char of the grammar: the alternatives UTF8-1 to UTF8-4 of section 4. */
  predicate IsUtf8Char(c: seq<uint8>) {
    (|c| == 1 && c[0] <= 0x7F)
    || (|c| == 2 && 0xC2 <= c[0] <= 0xDF && IsTail(c[1]))
    || (|c| == 3 &&
        (   (c[0] == 0xE0 && 0xA0 <= c[1] <= 0xBF && IsTail(c[2]))
         || ((0xE1 <= c[0] <= 0xEC || 0xEE <= c[0] <= 0xEF) && IsTail(c[1]) && IsTail(c[2]))
         || (c[0] == 0xED && 0x80 <= c[1] <= 0x9F && IsTail(c[2]))))
    || (|c| == 4 &&
        (   (c[0] == 0xF0 && 0x90 <= c[1] <= 0xBF && IsTail(c[2]) && IsTail(c[3]))
         || (0xF1 <= c[0] <= 0xF3 && IsTail(c[1]) && IsTail(c[2]) && IsTail(c[3]))
         || (c[0] == 0xF4 && 0x80 <= c[1] <= 0x8F && IsTail(c[2]) && IsTail(c[3]))))
  }

  function Concat(cs: seq<seq<uint8>>): seq<uint8> {
    if cs == [] then [] else cs[0] + Concat(cs[1..])
  }

  /** UTF8-octets = *( UTF8-char ): the bytes split into a sequence of UTF8-chars. */
  ghost predicate IsUtf8(b: seq<uint8>) {
    exists cs :: Concat(cs) == b && forall i | 0 <= i < |cs| :: IsUtf8Char(cs[i])
  }

  /** The number of octets a character starting with `b0` occupies; 0 if no character starts so. */
  function LeadLength(b0: uint8): (k: nat)
    ensures k <= 4
  {
    if b0 <= 0x7F then 1
    else if 0xC2 <= b0 <= 0xDF then 2
    else if 0xE0 <= b0 <= 0xEF then 3
    else if 0xF0 <= b0 <= 0xF4 then 4
    else 0
  }

  /** The lead octet of a UTF8-char announces its length. */
  lemma LeadLengthOf(c: seq<uint8>)
    requires IsUtf8Char(c)
    ensures LeadLength(c[0]) == |c|
  {
  }

  /** The scalar value a UTF8-char stands for (the bit layout of section 3). */
  function ScalarOf(c: seq<uint8>): (n: int)
    requires IsUtf8Char(c)
    ensures |c| == 1 ==> 0 <= n < 0x80
    ensures |c| == 2 ==> 0x80 <= n < 0x800
    ensures |c| == 3 ==> 0x800 <= n < 0x1_0000 && !(0xD800 <= n < 0xE000)
    ensures |c| == 4 ==> 0x1_0000 <= n < 0x11_0000
  {
    if |c| == 1 then c[0] as int
    else if |c| == 2 then (c[0] as int - 0xC0) * 0x40 + (c[1] as int - 0x80)
    else if |c| == 3 then
      (c[0] as int - 0xE0) * 0x1000 + (c[1] as int - 0x80) * 0x40 + (c[2] as int - 0x80)
    else
      (c[0] as int - 0xF0) * 0x4_0000 + (c[1] as int - 0x80) * 0x1000
      + (c[2] as int - 0x80) * 0x40 + (c[3] as int - 0x80)
  }

  function DecodeChar(c: seq<uint8>): char
    requires IsUtf8Char(c)
  {
    ScalarOf(c) as char
  }

  /** The UTF-8 encoding of one character: its scalar value cut into 6-bit groups
      behind the lead-byte marker of its length. */
  function EncodeChar(ch: char): (c: seq<uint8>)
    ensures 1 <= |c| <= 4
  {
    var n := ch as int;
    var n1, d0 := n / 0x40, n % 0x40;
    var n2, d1 := n1 / 0x40, n1 % 0x40;
    var n3, d2 := n2 / 0x40, n2 % 0x40;
    if n < 0x80 then
      [n as uint8]
    else if n < 0x800 then
      [(0xC0 + n1) as uint8, (0x80 + d0) as uint8]
    else if n < 0x1_0000 then
      [(0xE0 + n2) as uint8, (0x80 + d1) as uint8, (0x80 + d0) as uint8]
    else
      [(0xF0 + n3) as uint8, (0x80 + d2) as uint8, (0x80 + d1) as uint8, (0x80 + d0) as uint8]
  }

  lemma DivMod64(q: int, r: int)
    requires 0 <= r < 0x40
    ensures (q * 0x40 + r) / 0x40 == q && (q * 0x40 + r) % 0x40 == r
  {
  }

  /** The encoding of a character is one UTF8-char of the grammar, and it decodes back to the character. */
  lemma EncodeCharValid(ch: char)
    ensures IsUtf8Char(EncodeChar(ch)) && DecodeChar(EncodeChar(ch)) == ch
  {
    var n := ch as int;
    var n1, d0 := n / 0x40, n % 0x40;
    var n2, d1 := n1 / 0x40, n1 % 0x40;
    var n3, d2 := n2 / 0x40, n2 % 0x40;
    assert n == n1 * 0x40 + d0;
    assert n1 == n2 * 0x40 + d1;
    assert n2 == n3 * 0x40 + d2;
    var c := EncodeChar(ch);
    assert ScalarOf(c) == n;
  }

  /** `str::as_bytes`: the UTF-8 encoding of a text, one to four octets per character. */
  function Encode(s: string): (b: seq<uint8>)
    ensures |s| <= |b| <= 4 * |s|
  {
    if s == [] then [] else EncodeChar(s[0]) + Encode(s[1..])
  }

  /** `std::str::from_utf8`: the text the bytes encode, or None when they are not UTF-8;
      each character of the text takes one to four of the octets. */
  function Decode(b: seq<uint8>): (r: Option<string>)
    ensures r.Some? ==> |r.value| <= |b| <= 4 * |r.value|
    decreases |b|
  {
    if b == [] then Some([])
    else
      var k := LeadLength(b[0]);
      if k == 0 || k > |b| || !IsUtf8Char(b[..k]) then None
      else
        match Decode(b[k..])
        case None => None
        case Some(rest) => Some([DecodeChar(b[..k])] + rest)
  }

  /** Decoding undoes encoding: `from_utf8(s.as_bytes()) == Ok(s)`. */
  lemma {:induction false} DecodeEncode(s: string)
    ensures Decode(Encode(s)) == Some(s)
  {
    if s != [] {
      var c := EncodeChar(s[0]);
      EncodeCharValid(s[0]);
      var b := Encode(s);
      assert b == c + Encode(s[1..]);
      assert b[0] == c[0];
      LeadLengthOf(c);
      assert b[..|c|] == c;
      assert b[|c|..] == Encode(s[1..]);
      DecodeEncode(s[1..]);
      assert [s[0]] + s[1..] == s;
    }
  }

  /** Different octets never decode to the same character: a UTF8-char is the encoding of its character. */
  lemma EncodeDecodeChar(c: seq<uint8>)
    requires IsUtf8Char(c)
    ensures EncodeChar(DecodeChar(c)) == c
  {
    var n := ScalarOf(c);
    assert DecodeChar(c) as int == n;
    if |c| == 2 {
      DivMod64(c[0] as int - 0xC0, c[1] as int - 0x80);
    } else if |c| == 3 {
      var hi := (c[0] as int - 0xE0) * 0x40 + (c[1] as int - 0x80);
      assert n == hi * 0x40 + (c[2] as int - 0x80);
      DivMod64(hi, c[2] as int - 0x80);
      DivMod64(c[0] as int - 0xE0, c[1] as int - 0x80);
    } else if |c| == 4 {
      var hi := (c[0] as int - 0xF0) * 0x40 + (c[1] as int - 0x80);
      var mid := hi * 0x40 + (c[2] as int - 0x80);
      assert n == mid * 0x40 + (c[3] as int - 0x80);
      DivMod64(mid, c[3] as int - 0x80);
      DivMod64(hi, c[2] as int - 0x80);
      DivMod64(c[0] as int - 0xF0, c[1] as int - 0x80);
    }
  }

  /** Encoding undoes decoding: the text `from_utf8` returns has exactly the input as its bytes. */
  lemma {:induction false} EncodeDecode(b: seq<uint8>)
    requires Decode(b).Some?
    ensures Encode(Decode(b).value) == b
  {
    if b != [] {
      var k := LeadLength(b[0]);
      var rest := Decode(b[k..]).value;
      var s := [DecodeChar(b[..k])] + rest;
      assert Decode(b).value == s;
      assert s[0] == DecodeChar(b[..k]) && s[1..] == rest;
      EncodeDecodeChar(b[..k]);
      EncodeDecode(b[k..]);
      assert Encode(s) == b[..k] + b[k..];
      assert b == b[..k] + b[k..];
    }
  }

  /** `from_utf8` succeeds exactly on the well-formed sequences of section 4. */
  lemma {:induction false} DecodeAcceptsUtf8(b: seq<uint8>)
    ensures Decode(b).Some? <==> IsUtf8(b)
  {
    if Decode(b).Some? {
      var cs := Chunks(b);
    }
    if IsUtf8(b) {
      var cs :| Concat(cs) == b && forall i | 0 <= i < |cs| :: IsUtf8Char(cs[i]);
      ChunksDecode(cs);
    }
  }

  /** The split of accepted bytes into UTF8-chars, as `Decode` finds it. */
  lemma {:induction false} Chunks(b: seq<uint8>) returns (cs: seq<seq<uint8>>)
    requires Decode(b).Some?
    ensures Concat(cs) == b && forall i | 0 <= i < |cs| :: IsUtf8Char(cs[i])
    decreases |b|
  {
    if b == [] {
      cs := [];
    } else {
      var k := LeadLength(b[0]);
      assert IsUtf8Char(b[..k]);
      var rest := Chunks(b[k..]);
      cs := [b[..k]] + rest;
      assert cs[1..] == rest;
      assert b == b[..k] + b[k..];
    }
  }

  /** Bytes made of UTF8-chars are accepted. */
  lemma {:induction false} ChunksDecode(cs: seq<seq<uint8>>)
    requires forall i | 0 <= i < |cs| :: IsUtf8Char(cs[i])
    ensures Decode(Concat(cs)).Some?
  {
    if cs != [] {
      var b := Concat(cs);
      var c := cs[0];
      assert b == c + Concat(cs[1..]);
      assert b[0] == c[0];
      LeadLengthOf(c);
      assert b[..|c|] == c;
      assert b[|c|..] == Concat(cs[1..]);
      ChunksDecode(cs[1..]);
    }
  }

  /** The invalid sample reply of the test suites, [0, 159, 146, 150], is not UTF-8:
      0x9F is a continuation octet where a character must start. */
  lemma SampleIsNotUtf8()
    ensures !IsUtf8([0, 159, 146, 150])
  {
    var b: seq<uint8> := [0, 159, 146, 150];
    assert b[..1] == [0];
    assert b[1..] == [159, 146, 150];
    DecodeAcceptsUtf8(b);
  }
}
