/**
  * The hash strings of src/lib.rs: `register_service` hands back the target of
  * the stored item in mainline's `Id(<hex>)` debug form, and `find_by_hash`
  * turns such a string back into a 20-byte target (160 bits, the SHA-1 size
  * BEP 44 uses for immutable items).
  */
module DhtHash {
  import opened Wrappers
  import opened Utf8
  import opened Text
  import Hex

  /** A DHT target: 20 bytes. */
  type Id = s: seq<Byte> | |s| == 20 witness seq(20, _ => 0)

  /** Why `find_by_hash` refuses a hash string. */
  datatype HashError =
    | InvalidHashFormat(cause: Hex.HexError)   // "Invalid hash format: {cause:?}"
    | HashMustBe20Bytes                        // "Hash must be 20 bytes (SHA1)"

  /** mainline's `format!("{:?}", id)`: `Id(` + lower-case hex + `)`. */
  function FormatId(id: Id): string {
    "Id(" + Hex.EncodeLower(id) + ")"
  }

  /** Every leading `Id(` and then every trailing `)` removed. */
  function HexText(hashStr: string): string {
    TrimEndMatches(TrimStartMatches(hashStr, "Id("), ")")
  }

  /**
    * The parsing steps of `find_by_hash`: strip the wrapper, Base16-decode the
    * UTF-8 bytes of what is left, insist on 20 bytes.
    */
  function ParseHash(hashStr: string): Result<Id, HashError>
  {
    match Hex.Decode(Encode(HexText(hashStr)))
    case Err(e) => Err(InvalidHashFormat(e))
    case Ok(bytes) => if |bytes| != 20 then Err(HashMustBe20Bytes) else Ok(bytes)
  }

  /** An ASCII hex digit of either case. */
  predicate IsHexChar(c: char) {
    c as int < 0x80 && Hex.IsHexDigit(c as int)
  }

  predicate IsHexText(s: string) {
    forall i :: 0 <= i < |s| ==> IsHexChar(s[i])
  }

  /** `k` copies of `Id(`. */
  function Openers(k: nat): string {
    if k == 0 then [] else "Id(" + Openers(k - 1)
  }

  /** `j` copies of `)`. */
  function Closers(j: nat): string {
    seq(j, _ => ')')
  }

  lemma {:induction false} TrimStartOpeners(k: nat, x: string)
    ensures TrimStartMatches(Openers(k) + x, "Id(") == TrimStartMatches(x, "Id(")
    decreases k
  {
    if k == 0 {
      assert Openers(k) + x == x;
    } else {
      var y := Openers(k - 1) + x;
      assert Openers(k) + x == "Id(" + y;
      TrimStartMatchesOne("Id(", y);
      TrimStartOpeners(k - 1, x);
    }
  }

  /** `j` closers are `j - 1` closers and one more. */
  lemma ClosersSnoc(x: string, j: nat)
    requires j > 0
    ensures x + Closers(j) == (x + Closers(j - 1)) + ")"
  {
    assert Closers(j) == Closers(j - 1) + ")";
  }

  lemma {:induction false} TrimEndClosers(x: string, j: nat)
    ensures TrimEndMatches(x + Closers(j), ")") == TrimEndMatches(x, ")")
    decreases j
  {
    if j == 0 {
      assert x + Closers(j) == x;
    } else {
      var y := x + Closers(j - 1);
      ClosersSnoc(x, j);
      TrimEndMatchesOne(y, ")");
      TrimEndClosers(x, j - 1);
    }
  }

  /** Stripping the openers stops at a text that does not start with `I`. */
  lemma StripOpeners(k: nat, x: string)
    requires x == [] || x[0] != 'I'
    ensures TrimStartMatches(Openers(k) + x, "Id(") == x
  {
    TrimStartOpeners(k, x);
    if |x| >= 3 {
      assert x[..3][0] == x[0];
    }
  }

  /** Stripping the closers stops at a text that does not end with `)`. */
  lemma StripClosers(h: string, j: nat)
    requires h == [] || h[|h| - 1] != ')'
    ensures TrimEndMatches(h + Closers(j), ")") == h
  {
    TrimEndClosers(h, j);
    if h != [] {
      assert h[|h| - 1..][0] == h[|h| - 1];
    }
  }

  /**
    * Any number of leading `Id(` and trailing `)` around hex text are removed,
    * and nothing else is.
    */
  lemma HexTextOfWrapped(k: nat, h: string, j: nat)
    requires IsHexText(h)
    ensures HexText(Openers(k) + h + Closers(j)) == h
  {
    var x := h + Closers(j);
    assert Openers(k) + h + Closers(j) == Openers(k) + x;
    if x != [] {
      if h != [] { assert x[0] == h[0] && IsHexChar(h[0]); } else { assert x[0] == ')'; }
    }
    StripOpeners(k, x);
    if h != [] {
      assert IsHexChar(h[|h| - 1]);
    }
    StripClosers(h, j);
  }

  /** Formatting an id and parsing the text gives the id back. */
  lemma ParseFormat(id: Id)
    ensures ParseHash(FormatId(id)) == Ok(id)
  {
    var h := Hex.EncodeLower(id);
    Hex.EncodeLowerDigits(id);
    assert FormatId(id) == Openers(1) + h + Closers(1);
    HexTextOfWrapped(1, h, 1);
    Hex.DecodeEncodeLower(id);
  }

  /** Hex text is ASCII, so its bytes are its characters, each a hex digit. */
  lemma HexTextBytes(t: string)
    ensures IsHexText(t) ==> |Encode(t)| == |t| && Hex.AllHexDigits(Encode(t))
    ensures Hex.AllHexDigits(Encode(t)) ==> IsHexText(t)
  {
    if IsHexText(t) {
      EncodeAscii(t);
    }
    if Hex.AllHexDigits(Encode(t)) {
      AsciiFromEncoding(t);
      EncodeAscii(t);
      assert forall i :: 0 <= i < |t| ==> Encode(t)[i] == t[i] as int;
    }
  }

  /**
    * Every outcome of the parse, by the shape of the text left after the
    * wrapper is stripped: any character that is not a hex digit, or an odd
    * number of digits, is an invalid format; an even number other than 40 is
    * the wrong size; exactly 40 digits are accepted.
    */
  lemma ParseHashOutcome(s: string)
    ensures var t := HexText(s);
      && (!IsHexText(t) ==> ParseHash(s).Err? && ParseHash(s).error.InvalidHashFormat?)
      && (IsHexText(t) && |t| % 2 == 1 ==> ParseHash(s) == Err(InvalidHashFormat(Hex.OddLength)))
      && (IsHexText(t) && |t| % 2 == 0 && |t| != 40 ==> ParseHash(s) == Err(HashMustBe20Bytes))
      && (IsHexText(t) && |t| == 40 ==> ParseHash(s).Ok?)
  {
    HexTextBytes(HexText(s));
  }

  /**
    * An accepted target is exactly what the stripped text's digit pairs
    * stand for, in order.
    */
  lemma ParseHashDecodes(s: string)
    requires ParseHash(s).Ok?
    ensures Hex.DecodesTo(Encode(HexText(s)), ParseHash(s).value)
    ensures IsHexText(HexText(s)) && |HexText(s)| == 40
  {
    HexTextBytes(HexText(s));
  }

  /** The lower-case digit for the value of a digit of either case. */
  lemma LowerDigitOf(b: Byte)
    requires Hex.IsHexDigit(b)
    ensures Hex.LowerDigits[Hex.DigitValue(b)] as int == if 65 <= b <= 70 then b + 32 else b
  {
  }

  lemma SplitByte(a: nat, b: nat)
    requires a < 16 && b < 16
    ensures (16 * a + b) / 16 == a && (16 * a + b) % 16 == b
  {
  }

  /** The lower-case digit of a digit byte `b` that stands for the character `c`. */
  lemma LowerOfDigitChar(c: char, b: Byte)
    requires IsHexChar(c) && b == c as int
    ensures Hex.LowerDigits[Hex.DigitValue(b)] == LowerChar(c)
  {
    LowerDigitOf(b);
  }

  /** The high and low digit values of a pair are the quotient and remainder of its byte by 16. */
  lemma PairDigits(e: seq<Byte>, i: nat, b: Byte)
    requires 2 * i + 1 < |e| && Hex.IsHexDigit(e[2 * i]) && Hex.IsHexDigit(e[2 * i + 1])
    requires b == Hex.PairValue(e, i)
    ensures b / 16 == Hex.DigitValue(e[2 * i]) && b % 16 == Hex.DigitValue(e[2 * i + 1])
  {
    SplitByte(Hex.DigitValue(e[2 * i]), Hex.DigitValue(e[2 * i + 1]));
  }

  /** The two digits the re-encoding writes for byte `i` are the lower-case digits for the values of the input's pair `i`. */
  lemma ReencodedPair(id: Id, e: seq<Byte>, i: nat)
    requires |e| == 40 && i < 20
    requires Hex.DecodesTo(e, id)
    ensures Hex.EncodeLower(id)[2 * i] == Hex.LowerDigits[Hex.DigitValue(e[2 * i])]
    ensures Hex.EncodeLower(id)[2 * i + 1] == Hex.LowerDigits[Hex.DigitValue(e[2 * i + 1])]
  {
    PairDigits(e, i, id[i]);
    Hex.EncodeLowerAt(id, i);
  }

  /** Digit `k` of the re-encoding is the lower-case form of digit `k` of the input. */
  lemma ReencodedDigit(id: Id, e: seq<Byte>, t: string, k: nat)
    requires |t| == 40 && |e| == 40 && IsHexText(t) && k < 40
    requires Hex.DecodesTo(e, id)
    requires e[k] == t[k] as int
    requires Hex.EncodeLower(id)[k] == Hex.LowerDigits[Hex.DigitValue(e[k])]
    ensures Hex.EncodeLower(id)[k] == LowerAscii(t)[k]
  {
    LowerOfDigitChar(t[k], e[k]);
  }

  /** A digit index is the high or the low digit of pair `k / 2`. */
  lemma Halve(k: nat)
    ensures k == 2 * (k / 2) || k == 2 * (k / 2) + 1
  {
  }

  /** Re-encoding what 40 hex digits decode to gives those digits in lower case. */
  lemma Reencoded(id: Id, e: seq<Byte>, t: string)
    requires |t| == 40 && |e| == 40 && IsHexText(t)
    requires Hex.DecodesTo(e, id)
    requires forall i :: 0 <= i < |t| ==> e[i] == t[i] as int
    ensures Hex.EncodeLower(id) == LowerAscii(t)
  {
    forall k | 0 <= k < 40 ensures Hex.EncodeLower(id)[k] == LowerAscii(t)[k] {
      Halve(k);
      ReencodedPair(id, e, k / 2);
      ReencodedDigit(id, e, t, k);
    }
  }

  /**
    * The converse of ParseFormat: an accepted hash string is, up to the case
    * of its letters and repeated wrappers, the formatted id it decodes to.
    */
  lemma ParseHashFormats(s: string, id: Id)
    requires ParseHash(s) == Ok(id)
    ensures "Id(" + LowerAscii(HexText(s)) + ")" == FormatId(id)
  {
    var t := HexText(s);
    HexTextBytes(t);
    EncodeAscii(t);
    Reencoded(id, Encode(t), t);
  }
}
