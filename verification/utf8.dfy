/** UTF-8 as the loader meets it: `str::from_utf8` on the shebang line and
    on the interpreter path, and the two notions of whitespace that `trim`
    and `trim_ascii`/`is_ascii_whitespace` use. Well-formedness follows
    Table 3-7 of the Unicode Standard (the byte ranges of RFC 3629,
    section 4). */
module Utf8 {
  import opened Ints
  import opened Errors

  predicate IsContinuation(b: u8)
  {
    0x80 <= b <= 0xBF
  }

  /** The number of bytes of the well-formed sequence `bs` starts with, or
      0 when it does not start with one. Row by row, Table 3-7. */
  function LeadLength(bs: seq<u8>): (n: nat)
    ensures n <= 4 && n <= |bs|
    ensures bs != [] && bs[0] < 0x80 ==> n == 1
  {
    if bs == [] then 0
    else
      var b0 := bs[0];
      if b0 <= 0x7F then 1
      else if 0xC2 <= b0 <= 0xDF then
        if |bs| >= 2 && IsContinuation(bs[1]) then 2 else 0
      else if 0xE0 <= b0 <= 0xEF then
        var lo := if b0 == 0xE0 then 0xA0 else 0x80;
        var hi := if b0 == 0xED then 0x9F else 0xBF;
        if |bs| >= 3 && lo <= bs[1] <= hi && IsContinuation(bs[2]) then 3 else 0
      else if 0xF0 <= b0 <= 0xF4 then
        var lo := if b0 == 0xF0 then 0x90 else 0x80;
        var hi := if b0 == 0xF4 then 0x8F else 0xBF;
        if |bs| >= 4 && lo <= bs[1] <= hi && IsContinuation(bs[2]) && IsContinuation(bs[3]) then 4 else 0
      else 0
  }

  /** The scalar value of the sequence of `n` bytes that `LeadLength`
      accepted. */
  function ScalarOf(bs: seq<u8>, n: nat): (c: char)
    requires 1 <= n && n == LeadLength(bs)
  {
    var b0: int, b1: int, b2: int, b3: int := bs[0], if n >= 2 then bs[1] else 0, if n >= 3 then bs[2] else 0,
      if n >= 4 then bs[3] else 0;
    if n == 1 then b0 as char
    else if n == 2 then ((b0 - 0xC0) * 64 + (b1 - 0x80)) as char
    else if n == 3 then ((b0 - 0xE0) * 4096 + (b1 - 0x80) * 64 + (b2 - 0x80)) as char
    else ((b0 - 0xF0) * 262144 + (b1 - 0x80) * 4096 + (b2 - 0x80) * 64 + (b3 - 0x80)) as char
  }

  /** `str::from_utf8`: the decoded text, or InvalidData at the first
      ill-formed sequence. */
  function Decode(bs: seq<u8>): (r: Result<string>)
    ensures r.Ok? ==> |r.value| <= |bs|
    ensures r.Err? ==> r.error == InvalidData
    decreases |bs|
  {
    if bs == [] then Ok([])
    else
      var n := LeadLength(bs);
      if n == 0 then Err(InvalidData)
      else
        var rest :- Decode(bs[n..]);
        Ok([ScalarOf(bs, n)] + rest)
  }

  predicate WellFormed(bs: seq<u8>)
  {
    Decode(bs).Ok?
  }

  // -----------------------------------------------------------------------
  // The encoder, which decoding inverts

  function EncodeChar(c: char): (bs: seq<u8>)
    ensures 1 <= |bs| <= 4
  {
    var n := c as int;
    if n < 0x80 then [n]
    else if n < 0x800 then [0xC0 + n / 64, 0x80 + n % 64]
    else if n < 0x1_0000 then [0xE0 + n / 4096, 0x80 + (n / 64) % 64, 0x80 + n % 64]
    else [0xF0 + n / 262144, 0x80 + (n / 4096) % 64, 0x80 + (n / 64) % 64, 0x80 + n % 64]
  }

  function Encode(s: string): seq<u8>
  {
    if s == [] then [] else EncodeChar(s[0]) + Encode(s[1..])
  }

  /** The encoding of one scalar is a sequence Table 3-7 accepts, and it
      decodes back to that scalar. */
  lemma DecodeEncodeChar(c: char, rest: seq<u8>)
    ensures LeadLength(EncodeChar(c) + rest) == |EncodeChar(c)|
    ensures ScalarOf(EncodeChar(c) + rest, |EncodeChar(c)|) == c
  {
    var n := c as int;
    if n < 0x80 {
    } else if n < 0x800 {
      assert (n / 64) * 64 + n % 64 == n;
    } else if n < 0x1_0000 {
      DecodeThreeByteChar(c, rest);
    } else {
      DecodeFourByteChar(c, rest);
    }
  }

  lemma DecodeThreeByteChar(c: char, rest: seq<u8>)
    requires 0x800 <= c as int < 0x1_0000
    ensures LeadLength(EncodeChar(c) + rest) == 3
    ensures ScalarOf(EncodeChar(c) + rest, 3) == c
  {
    var n := c as int;
    assert n / 64 == (n / 4096) * 64 + (n / 64) % 64;
    assert n == (n / 64) * 64 + n % 64;
  }

  lemma DecodeFourByteChar(c: char, rest: seq<u8>)
    requires 0x1_0000 <= c as int
    ensures LeadLength(EncodeChar(c) + rest) == 4
    ensures ScalarOf(EncodeChar(c) + rest, 4) == c
  {
    var n := c as int;
    assert n / 4096 == (n / 262144) * 64 + (n / 4096) % 64;
    assert n / 64 == (n / 4096) * 64 + (n / 64) % 64;
    assert n == (n / 64) * 64 + n % 64;
  }

  /** Decoding inverts encoding: every string survives the round trip. */
  lemma {:induction false} DecodeEncode(s: string)
    ensures Decode(Encode(s)) == Ok(s)
  {
    if s != [] {
      var head := EncodeChar(s[0]);
      var tail := Encode(s[1..]);
      DecodeEncodeChar(s[0], tail);
      assert (head + tail)[|head|..] == tail;
      DecodeEncode(s[1..]);
      assert Encode(s) == head + tail;
      assert Decode(head + tail) == Ok([s[0]] + s[1..]);
      assert [s[0]] + s[1..] == s;
    }
  }

  /** The scalar a well-formed sequence decodes to re-encodes to exactly
      those bytes. */
  lemma EncodeScalarOf(bs: seq<u8>, n: nat)
    requires 1 <= n && n == LeadLength(bs)
    ensures EncodeChar(ScalarOf(bs, n)) == bs[..n]
  {
    if n == 2 {
      EncodeTwoBytes(bs);
    } else if n == 3 {
      EncodeThreeBytes(bs);
    } else if n == 4 {
      EncodeFourBytes(bs);
    }
  }

  lemma EncodeTwoBytes(bs: seq<u8>)
    requires LeadLength(bs) == 2
    ensures EncodeChar(ScalarOf(bs, 2)) == bs[..2]
  {
    var v := ScalarOf(bs, 2) as int;
    var b0: int, b1: int := bs[0], bs[1];
    assert v / 64 == b0 - 0xC0 && v % 64 == b1 - 0x80;
  }

  lemma EncodeThreeBytes(bs: seq<u8>)
    requires LeadLength(bs) == 3
    ensures EncodeChar(ScalarOf(bs, 3)) == bs[..3]
  {
    var v := ScalarOf(bs, 3) as int;
    var b0: int, b1: int, b2: int := bs[0], bs[1], bs[2];
    assert v / 4096 == b0 - 0xE0;
    assert v / 64 == (b0 - 0xE0) * 64 + (b1 - 0x80);
    assert v % 64 == b2 - 0x80;
  }

  lemma EncodeFourBytes(bs: seq<u8>)
    requires LeadLength(bs) == 4
    ensures EncodeChar(ScalarOf(bs, 4)) == bs[..4]
  {
    var v := ScalarOf(bs, 4) as int;
    var x0: int, x1: int, x2: int, x3: int := bs[0] as int - 0xF0, bs[1] as int - 0x80, bs[2] as int - 0x80,
      bs[3] as int - 0x80;
    assert v == x0 * 262144 + x1 * 4096 + x2 * 64 + x3;
    DivideAt(x0 * 4096 + x1 * 64 + x2, x3, 64);
    DivideAt(x0 * 64 + x1, x2 * 64 + x3, 4096);
    DivideAt(x0, x1 * 4096 + x2 * 64 + x3, 262144);
    DivideAt(x0 * 64 + x1, x2, 64);
    DivideAt(x0, x1, 64);
  }

  /** Euclidean division of `hi * m + lo` by `m` for a digit `lo`. */
  lemma DivideAt(hi: int, lo: int, m: int)
    requires m in {64, 4096, 262144}
    requires 0 <= lo < m
    ensures (hi * m + lo) / m == hi && (hi * m + lo) % m == lo
  {
    if m == 64 {
      assert (hi * 64 + lo) / 64 == hi;
    } else if m == 4096 {
      assert (hi * 4096 + lo) / 4096 == hi;
    } else {
      assert (hi * 262144 + lo) / 262144 == hi;
    }
  }

  /** Encoding inverts decoding: text that decodes re-encodes to the very
      bytes it came from, so `Decode` accepts exactly the encodings. */
  lemma {:induction false} EncodeDecode(bs: seq<u8>)
    requires WellFormed(bs)
    ensures Encode(Decode(bs).value) == bs
    decreases |bs|
  {
    if bs != [] {
      var n := LeadLength(bs);
      DecodeCons(bs);
      var c := ScalarOf(bs, n);
      var rest := Decode(bs[n..]).value;
      EncodeDecode(bs[n..]);
      EncodeScalarOf(bs, n);
      ReassembleEncoding(bs, n, c, rest);
    }
  }

  /** Encoding a first scalar and a rest that encode to the two halves of
      `bs` gives `bs` back. */
  lemma ReassembleEncoding(bs: seq<u8>, n: nat, c: char, rest: string)
    requires n <= |bs| && EncodeChar(c) == bs[..n] && Encode(rest) == bs[n..]
    ensures Encode([c] + rest) == bs
  {
    EncodeCons(c, rest);
    assert bs == bs[..n] + bs[n..];
  }

  /** One step of a successful decode: the first scalar, then the rest. */
  lemma DecodeCons(bs: seq<u8>)
    requires bs != [] && WellFormed(bs)
    ensures 1 <= LeadLength(bs) && WellFormed(bs[LeadLength(bs)..])
    ensures Decode(bs).value == [ScalarOf(bs, LeadLength(bs))] + Decode(bs[LeadLength(bs)..]).value
  {
  }

  lemma EncodeCons(c: char, s: string)
    ensures Encode([c] + s) == EncodeChar(c) + Encode(s)
  {
    assert ([c] + s)[1..] == s;
  }

  /** ASCII bytes decode one character each. */
  lemma {:induction false} DecodeAscii(bs: seq<u8>)
    requires forall i :: 0 <= i < |bs| ==> bs[i] < 0x80
    ensures Decode(bs).Ok?
    ensures |Decode(bs).value| == |bs|
    ensures forall i :: 0 <= i < |bs| ==> Decode(bs).value[i] as int == bs[i]
    decreases |bs|
  {
    if bs != [] {
      DecodeAscii(bs[1..]);
    }
  }

  // -----------------------------------------------------------------------
  // Whitespace

  /** `char::is_whitespace`: the Unicode White_Space property. */
  predicate IsWhitespace(c: char)
  {
    var n := c as int;
    || 0x09 <= n <= 0x0D || n == 0x20 || n == 0x85 || n == 0xA0 || n == 0x1680
    || 0x2000 <= n <= 0x200A || n == 0x2028 || n == 0x2029 || n == 0x202F
    || n == 0x205F || n == 0x3000
  }

  /** `char::is_ascii_whitespace`: tab, line feed, form feed, carriage
      return and space; the vertical tab U+000B is not among them. */
  predicate IsAsciiWhitespace(c: char)
  {
    var n := c as int;
    n == 0x09 || n == 0x0A || n == 0x0C || n == 0x0D || n == 0x20
  }

  lemma AsciiWhitespaceIsWhitespace(c: char)
    ensures IsAsciiWhitespace(c) ==> IsWhitespace(c)
    ensures IsWhitespace(c) && (c as int) < 0x80 && !IsAsciiWhitespace(c) ==> c as int == 0x0B
  {
  }
}
