/**
  * Base16 as the Rust `hex` crate implements it (section 8 of RFC 4648):
  * `hex::decode` accepts digits of either case and reports an odd length or
  * the first byte that is not a digit; encoding writes lower-case digits.
  */
module Hex {
  import opened Wrappers
  import opened Utf8

  /** An ASCII byte '0'..'9', 'a'..'f' or 'A'..'F'. */
  predicate IsHexDigit(b: Byte) {
    (48 <= b <= 57) || (97 <= b <= 102) || (65 <= b <= 70)
  }

  predicate AllHexDigits(bs: seq<Byte>) {
    forall i :: 0 <= i < |bs| ==> IsHexDigit(bs[i])
  }

  /** The value of one digit. */
  function DigitValue(b: Byte): (v: nat)
    requires IsHexDigit(b)
    ensures v < 16
  {
    if b <= 57 then b - 48 else if b >= 97 then b - 97 + 10 else b - 65 + 10
  }

  /** The decoding error, as `hex::FromHexError` reports it. */
  datatype HexError = OddLength | InvalidHexCharacter(c: Byte, index: nat)

  /** The byte that the digit pair starting at `2 * i` stands for. */
  function PairValue(bs: seq<Byte>, i: nat): Byte
    requires 2 * i + 1 < |bs| && IsHexDigit(bs[2 * i]) && IsHexDigit(bs[2 * i + 1])
  {
    16 * DigitValue(bs[2 * i]) + DigitValue(bs[2 * i + 1])
  }

  /** `out` is what the digit pairs of `bs` stand for. */
  predicate DecodesTo(bs: seq<Byte>, out: seq<Byte>) {
    && |out| * 2 == |bs|
    && AllHexDigits(bs)
    && forall i :: 0 <= i < |out| ==> out[i] == PairValue(bs, i)
  }

  /** `k` is the index of the first byte of `bs` that is not a digit. */
  predicate FirstNonDigit(bs: seq<Byte>, k: nat) {
    && k < |bs|
    && !IsHexDigit(bs[k])
    && forall j :: 0 <= j < k ==> IsHexDigit(bs[j])
  }

  /**
    * Decodes the digit pairs of `bs`, whose first byte sits at index `offset`
    * of the whole input: the first byte that is not a digit is reported with
    * its index, the high digit of a pair before the low one.
    */
  function DecodePairs(bs: seq<Byte>, offset: nat): (r: Result<seq<Byte>, HexError>)
    requires |bs| % 2 == 0
    ensures r.Ok? <==> AllHexDigits(bs)
    ensures r.Ok? ==> DecodesTo(bs, r.value)
    ensures r.Err? ==> (
      && r.error.InvalidHexCharacter?
      && offset <= r.error.index
      && FirstNonDigit(bs, r.error.index - offset)
      && r.error.c == bs[r.error.index - offset])
    decreases |bs|
  {
    if bs == [] then Ok([])
    else if !IsHexDigit(bs[0]) then Err(InvalidHexCharacter(bs[0], offset))
    else if !IsHexDigit(bs[1]) then Err(InvalidHexCharacter(bs[1], offset + 1))
    else
      var rest := DecodePairs(bs[2..], offset + 2);
      ShiftPairs(bs);
      match rest
      case Err(e) => Err(e)
      case Ok(tail) => Ok([PairValue(bs, 0)] + tail)
  }

  /** Dropping the first digit pair shifts every index of the rest by two. */
  lemma ShiftPairs(bs: seq<Byte>)
    requires |bs| >= 2 && IsHexDigit(bs[0]) && IsHexDigit(bs[1])
    ensures AllHexDigits(bs) <==> AllHexDigits(bs[2..])
    ensures forall k: nat :: FirstNonDigit(bs[2..], k) ==> FirstNonDigit(bs, k + 2)
    ensures forall out :: DecodesTo(bs[2..], out) ==> DecodesTo(bs, [PairValue(bs, 0)] + out)
  {
    assert forall i :: 2 <= i < |bs| ==> bs[i] == bs[2..][i - 2];
    assert AllHexDigits(bs[2..]) ==> AllHexDigits(bs) by {
      if AllHexDigits(bs[2..]) {
        forall i | 0 <= i < |bs| ensures IsHexDigit(bs[i]) {
          if i >= 2 { assert bs[i] == bs[2..][i - 2]; }
        }
      }
    }
    forall out | DecodesTo(bs[2..], out) ensures DecodesTo(bs, [PairValue(bs, 0)] + out) {
      var r := [PairValue(bs, 0)] + out;
      forall i | 1 <= i < |r| ensures r[i] == PairValue(bs, i) {
        assert r[i] == out[i - 1] == PairValue(bs[2..], i - 1);
      }
    }
  }

  /** `hex::decode`: an odd length is refused before any digit is looked at. */
  function Decode(bs: seq<Byte>): (r: Result<seq<Byte>, HexError>)
    ensures r.Ok? <==> |bs| % 2 == 0 && AllHexDigits(bs)
    ensures r.Ok? ==> DecodesTo(bs, r.value)
    ensures r == Err(OddLength) <==> |bs| % 2 == 1
    ensures r.Err? && r.error.InvalidHexCharacter? ==>
      FirstNonDigit(bs, r.error.index) && r.error.c == bs[r.error.index]
  {
    if |bs| % 2 != 0 then Err(OddLength) else DecodePairs(bs, 0)
  }

  const LowerDigits: string := "0123456789abcdef"

  /** Lower-case Base16 text of `bs`, two digits per byte, high digit first. */
  function EncodeLower(bs: seq<Byte>): (s: string)
    ensures |s| == 2 * |bs|
  {
    if bs == [] then [] else [LowerDigits[bs[0] / 16], LowerDigits[bs[0] % 16]] + EncodeLower(bs[1..])
  }

  /** The digits of byte `i` sit at `2 * i` and `2 * i + 1`. */
  lemma {:induction false} EncodeLowerAt(bs: seq<Byte>, i: nat)
    requires i < |bs|
    ensures EncodeLower(bs)[2 * i] == LowerDigits[bs[i] / 16]
    ensures EncodeLower(bs)[2 * i + 1] == LowerDigits[bs[i] % 16]
    decreases i
  {
    if i > 0 {
      EncodeLowerAt(bs[1..], i - 1);
    }
  }

  /** Each lower-case digit is an ASCII hex digit whose value is its position. */
  lemma LowerDigitsDecode()
    ensures IsAscii(LowerDigits)
    ensures forall d :: 0 <= d < 16 ==> IsHexDigit(LowerDigits[d] as int) && DigitValue(LowerDigits[d] as int) == d
  {
  }

  /** The encoding is ASCII text made only of hex digits. */
  lemma EncodeLowerDigits(bs: seq<Byte>)
    ensures IsAscii(EncodeLower(bs))
    ensures forall k :: 0 <= k < |EncodeLower(bs)| ==> IsHexDigit(EncodeLower(bs)[k] as int)
  {
    var s := EncodeLower(bs);
    LowerDigitsDecode();
    forall k | 0 <= k < |s| ensures s[k] as int < 0x80 && IsHexDigit(s[k] as int) {
      EncodeLowerAt(bs, k / 2);
      assert k == 2 * (k / 2) || k == 2 * (k / 2) + 1;
    }
  }

  /** Decoding the lower-case encoding gives the bytes back. */
  lemma DecodeEncodeLower(bs: seq<Byte>)
    ensures Decode(Encode(EncodeLower(bs))) == Ok(bs)
  {
    var s := EncodeLower(bs);
    EncodeLowerDigits(bs);
    EncodeAscii(s);
    var e := Encode(s);
    assert AllHexDigits(e);
    var r := Decode(e);
    LowerDigitsDecode();
    forall i | 0 <= i < |bs| ensures r.value[i] == bs[i] {
      EncodeLowerAt(bs, i);
      assert r.value[i] == PairValue(e, i);
      assert e[2 * i] == LowerDigits[bs[i] / 16] as int;
      assert e[2 * i + 1] == LowerDigits[bs[i] % 16] as int;
    }
    assert r.value == bs;
  }
}
