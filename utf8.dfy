/**
  * UTF-8 encoding of text, as Rust's `str::as_bytes` exposes it. Used where
  * the source hands a string's bytes to byte-level code: the DHT record key
  * built from a service name, and the hex decoder applied to a hash string.
  */
module Utf8 {

  type Byte = b: int | 0 <= b < 256

  /** The one-to-four-byte UTF-8 encoding of one Unicode scalar value. */
  function EncodeChar(c: char): (bs: seq<Byte>)
    ensures 1 <= |bs| <= 4
  {
    var n := c as int;
    if n < 0x80 then [n]
    else if n < 0x800 then [0xC0 + n / 64, 0x80 + n % 64]
    else if n < 0x1_0000 then [0xE0 + n / 4096, 0x80 + (n / 64) % 64, 0x80 + n % 64]
    else [0xF0 + n / 262144, 0x80 + (n / 4096) % 64, 0x80 + (n / 64) % 64, 0x80 + n % 64]
  }

  /** The number of bytes of the sequence that a lead byte starts. */
  function SequenceLength(lead: Byte): nat {
    if lead < 0x80 then 1 else if lead < 0xE0 then 2 else if lead < 0xF0 then 3 else 4
  }

  /** The scalar value a well-formed one-to-four-byte sequence stands for. */
  function ScalarValue(bs: seq<Byte>): int
    requires 1 <= |bs| <= 4
  {
    var b := seq(|bs|, i requires 0 <= i < |bs| => bs[i] as int);
    if |b| == 1 then b[0]
    else if |b| == 2 then (b[0] - 0xC0) * 64 + (b[1] - 0x80)
    else if |b| == 3 then (b[0] - 0xE0) * 4096 + (b[1] - 0x80) * 64 + (b[2] - 0x80)
    else (b[0] - 0xF0) * 262144 + (b[1] - 0x80) * 4096 + (b[2] - 0x80) * 64 + (b[3] - 0x80)
  }

  /** The lead byte announces the length, and the bytes give the character back. */
  lemma EncodeCharDecodes(c: char)
    ensures |EncodeChar(c)| == SequenceLength(EncodeChar(c)[0])
    ensures ScalarValue(EncodeChar(c)) == c as int
  {
    var n := c as int;
    if n >= 0x1_0000 {
      var a, b, d, e := n / 262144, (n / 4096) % 64, (n / 64) % 64, n % 64;
      assert n / 4096 == a * 64 + b;
      assert n / 64 == (n / 4096) * 64 + d;
      assert n == (n / 64) * 64 + e;
    } else if n >= 0x800 {
      assert n / 64 == (n / 4096) * 64 + (n / 64) % 64;
    }
  }

  /** Rust's `str::as_bytes`: the concatenated encodings of the characters. */
  function Encode(s: string): (bs: seq<Byte>)
    ensures |bs| >= |s|
  {
    if s == [] then [] else EncodeChar(s[0]) + Encode(s[1..])
  }

  /** Encoding distributes over concatenation. */
  lemma {:induction false} EncodeConcat(s: string, t: string)
    ensures Encode(s + t) == Encode(s) + Encode(t)
    decreases |s|
  {
    if s == [] {
      assert s + t == t;
    } else {
      assert (s + t)[0] == s[0];
      assert (s + t)[1..] == s[1..] + t;
      EncodeConcat(s[1..], t);
    }
  }

  /** Two texts with the same encoding are the same text: encoding is injective. */
  lemma {:induction false} EncodeInjective(s: string, t: string)
    requires Encode(s) == Encode(t)
    ensures s == t
    decreases |s|
  {
    if s != [] && t != [] {
      var a, b := EncodeChar(s[0]), EncodeChar(t[0]);
      EncodeCharDecodes(s[0]);
      EncodeCharDecodes(t[0]);
      assert a[0] == Encode(s)[0] == Encode(t)[0] == b[0];
      assert |a| == |b|;
      assert a == Encode(s)[..|a|] == Encode(t)[..|b|] == b;
      assert s[0] as int == t[0] as int;
      assert Encode(s[1..]) == Encode(s)[|a|..] == Encode(t)[|b|..] == Encode(t[1..]);
      EncodeInjective(s[1..], t[1..]);
      assert s == [s[0]] + s[1..] && t == [t[0]] + t[1..];
    }
  }

  /** Every character is below U+0080. */
  predicate IsAscii(s: string) {
    forall i :: 0 <= i < |s| ==> s[i] as int < 0x80
  }

  /** ASCII text encodes to one byte per character, each equal to the character's code. */
  lemma {:induction false} EncodeAscii(s: string)
    requires IsAscii(s)
    ensures |Encode(s)| == |s|
    ensures forall i :: 0 <= i < |s| ==> Encode(s)[i] == s[i] as int
    decreases |s|
  {
    if s != [] {
      assert IsAscii(s[1..]) by {
        forall i | 0 <= i < |s| - 1 ensures s[1..][i] as int < 0x80 { assert s[1..][i] == s[i + 1]; }
      }
      EncodeAscii(s[1..]);
      assert Encode(s) == [s[0] as int] + Encode(s[1..]);
    }
  }

  /** A character outside ASCII encodes to bytes that are all at least 0x80. */
  lemma EncodeCharNonAscii(c: char)
    requires c as int >= 0x80
    ensures forall i :: 0 <= i < |EncodeChar(c)| ==> EncodeChar(c)[i] >= 0x80
  {
  }

  /** A text whose encoding has only bytes below 0x80 is ASCII, and the bytes are its characters. */
  lemma {:induction false} AsciiFromEncoding(s: string)
    requires forall i :: 0 <= i < |Encode(s)| ==> Encode(s)[i] < 0x80
    ensures IsAscii(s)
    ensures |Encode(s)| == |s|
    decreases |s|
  {
    if s != [] {
      var a := EncodeChar(s[0]);
      assert Encode(s) == a + Encode(s[1..]);
      assert a[0] == Encode(s)[0];
      if s[0] as int >= 0x80 {
        EncodeCharNonAscii(s[0]);
      }
      assert forall i :: 0 <= i < |Encode(s[1..])| ==> Encode(s[1..])[i] == Encode(s)[i + 1];
      AsciiFromEncoding(s[1..]);
      forall i | 0 <= i < |s| ensures s[i] as int < 0x80 {
        if i > 0 { assert s[i] == s[1..][i - 1]; }
      }
    }
  }
}
