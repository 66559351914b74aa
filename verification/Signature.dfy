/**
 evm.SigToVRS: splitting a signature for the contract, with a malleability check made by
 comparing strings.
 */
module Signature {
  import opened Wrappers
  import opened Hex

  datatype SigError = BadLength | BadVParam | BadS

  /** An element of the contract's signature array; `Empty` is the zero value of the Go struct. */
  datatype Vrs = Empty | Vrs(v: int, r: Hash, s: Hash)

  /** The two constants of the source, the first written in four pieces. */
  const MALLEABILITY_THRESHOLD: string :=
    "0x" + ("7fffffffffffffff" + "ffffffffffffffff" + "5d576e7357a4501d" + "dfe92f46681b20a0")
  const ZERO_S_VALUE: string := "0x" + Zeros(64)

  /** The number written in MALLEABILITY_THRESHOLD, and the order of the curve. */
  const THRESHOLD: nat := 0x7fffffffffffffffffffffffffffffff5d576e7357a4501ddfe92f46681b20a0
  const SECP256K1_N: nat := 0xfffffffffffffffffffffffffffffffebaaedce6af48a03bbfd25e8cd0364141

  function Zeros(n: nat): (s: string)
    ensures |s| == n && forall i | 0 <= i < n :: s[i] == '0'
  {
    seq(n, _ => '0')
  }

  function SigToVRS(sigHex: string): Result<Vrs, SigError> {
    var bytes := FromHex(Lower(sigHex));
    if |bytes| != 65 then Err(BadLength)
    else if bytes[64] !in {0, 1, 27, 28} then Err(BadVParam)
    else
      var v := if bytes[64] < 27 then bytes[64] + 27 else bytes[64];
      var r: Hash := bytes[..32];
      var s: Hash := bytes[32..64];
      if !LexLess(HashHex(s), MALLEABILITY_THRESHOLD) || HashHex(s) == ZERO_S_VALUE
      then Err(BadS) else Ok(Vrs(v, r, s))
  }

  /** Appending four bytes appends their eight digits and shifts the number by 32 bits. */
  lemma AppendWord(bs: seq<byte>, a: byte, b: byte, c: byte, d: byte, text: string) returns (longer: seq<byte>)
    requires text == [Digit(a / 16), Digit(a % 16), Digit(b / 16), Digit(b % 16),
                      Digit(c / 16), Digit(c % 16), Digit(d / 16), Digit(d % 16)]
    ensures |longer| == |bs| + 4 && Encode(longer) == Encode(bs) + text
    ensures BigEndian(longer) == BigEndian(bs) * 0x1_0000_0000 + Word(a, b, c, d)
  {
    longer := bs + [a, b, c, d];
    EncodeConcat(bs, [a, b, c, d]);
    BigEndianConcat(bs, [a, b, c, d]);
    var w := [a, b, c, d];
    assert w[1..] == [b, c, d] && w[2..] == [c, d] && w[3..] == [d] && w[4..] == [];
    assert w[1..][1..] == w[2..] && w[2..][1..] == w[3..] && w[3..][1..] == w[4..];
    assert Encode(w[3..]) == [Digit(d / 16), Digit(d % 16)];
    assert Encode(w[2..]) == [Digit(c / 16), Digit(c % 16)] + Encode(w[3..]);
    assert Encode(w[1..]) == [Digit(b / 16), Digit(b % 16)] + Encode(w[2..]);
    assert Encode(w) == text;
    assert Pow256(1) == 256 && Pow256(2) == 0x10000 && Pow256(3) == 0x1000000 && Pow256(4) == 0x1_0000_0000;
    assert BigEndian(w[3..]) == d as int;
    assert BigEndian(w[2..]) == 0x100 * (c as int) + d;
    assert BigEndian(w[1..]) == 0x10000 * (b as int) + BigEndian(w[2..]);
    assert BigEndian(w) == Word(a, b, c, d);
    hide BigEndian, Encode, Word, Pow256;
  }

  function Word(a: int, b: int, c: int, d: int): int {
    0x1000000 * a + 0x10000 * b + 0x100 * c + d
  }

  // The four quarters of the constant.

  lemma Quarter0() returns (t: seq<byte>)
    ensures |t| == 8 && Encode(t) == "7fffffffffffffff" && BigEndian(t) == 0x7fffffffffffffff
  {
    var half := AppendWord([], 0x7f, 0xff, 0xff, 0xff, "7fffffff");
    t := AppendWord(half, 0xff, 0xff, 0xff, 0xff, "ffffffff");
  }

  lemma Quarter1() returns (t: seq<byte>)
    ensures |t| == 8 && Encode(t) == "ffffffffffffffff" && BigEndian(t) == 0xffffffffffffffff
  {
    var half := AppendWord([], 0xff, 0xff, 0xff, 0xff, "ffffffff");
    t := AppendWord(half, 0xff, 0xff, 0xff, 0xff, "ffffffff");
  }

  lemma Quarter2() returns (t: seq<byte>)
    ensures |t| == 8 && Encode(t) == "5d576e7357a4501d" && BigEndian(t) == 0x5d576e7357a4501d
  {
    var half := AppendWord([], 0x5d, 0x57, 0x6e, 0x73, "5d576e73");
    t := AppendWord(half, 0x57, 0xa4, 0x50, 0x1d, "57a4501d");
  }

  lemma Quarter3() returns (t: seq<byte>)
    ensures |t| == 8 && Encode(t) == "dfe92f46681b20a0" && BigEndian(t) == 0xdfe92f46681b20a0
  {
    var half := AppendWord([], 0xdf, 0xe9, 0x2f, 0x46, "dfe92f46");
    t := AppendWord(half, 0x68, 0x1b, 0x20, 0xa0, "681b20a0");
  }

  lemma AppendQuarter(bs: seq<byte>, q: seq<byte>)
    requires |q| == 8
    ensures Encode(bs + q) == Encode(bs) + Encode(q)
    ensures BigEndian(bs + q) == BigEndian(bs) * 0x1_0000_0000_0000_0000 + BigEndian(q)
  {
    EncodeConcat(bs, q);
    BigEndianConcat(bs, q);
    assert Pow256(1) == 256 && Pow256(2) == 0x10000 && Pow256(4) == 0x1_0000_0000 && Pow256(6) == 0x1_0000_0000_0000;
    assert Pow256(8) == 0x1_0000_0000_0000_0000;
  }

  /** MALLEABILITY_THRESHOLD is the text of 32 bytes that are THRESHOLD big-endian. */
  lemma ThresholdBytes() returns (t: Hash)
    ensures MALLEABILITY_THRESHOLD == HashHex(t) && BigEndian(t) == THRESHOLD
  {
    var q0 := Quarter0();
    var q1 := Quarter1();
    var q2 := Quarter2();
    var q3 := Quarter3();
    AppendQuarter(q0, q1);
    AppendQuarter(q0 + q1, q2);
    AppendQuarter(q0 + q1 + q2, q3);
    t := q0 + q1 + q2 + q3;
    assert HashHex(t) == "0x" + (Encode(q0) + Encode(q1) + Encode(q2) + Encode(q3));
  }

  lemma {:induction false} ZeroText(bs: seq<byte>)
    ensures Encode(bs) == Zeros(2 * |bs|) <==> BigEndian(bs) == 0
  {
    BigEndianZero(bs);
    if bs != [] {
      ZeroText(bs[1..]);
      BigEndianZero(bs[1..]);
      var e := Encode(bs);
      assert e == [Digit(bs[0] / 16), Digit(bs[0] % 16)] + Encode(bs[1..]);
      if e == Zeros(2 * |bs|) {
        assert e[0] == '0' && e[1] == '0';
        assert bs[0] == 0;
        assert Encode(bs[1..]) == e[2..] == Zeros(2 * |bs[1..]|);
        assert forall i | 0 < i < |bs| :: bs[i] == bs[1..][i - 1];
      }
    }
  }

  lemma LexPrefix(a: string, b: string)
    ensures LexLess("0x" + a, "0x" + b) <==> LexLess(a, b)
  {
    assert ("0x" + a)[1..][1..] == a && ("0x" + b)[1..][1..] == b;
  }

  /** What the string comparisons decide about the number s. */
  lemma StringCheckIsNumeric(s: Hash)
    ensures LexLess(HashHex(s), MALLEABILITY_THRESHOLD) <==> BigEndian(s) < THRESHOLD
    ensures HashHex(s) == ZERO_S_VALUE <==> BigEndian(s) == 0
  {
    var t := ThresholdBytes();
    LexPrefix(Encode(s), Encode(t));
    LexIsNumeric(s, t);
    ZeroText(s);
    assert HashHex(s)[2..] == Encode(s) && ZERO_S_VALUE[2..] == Zeros(64);
  }

  /** The signature layout the contract accepts: 65 bytes, a known v, and s strictly between the bounds. */
  ghost predicate Acceptable(bs: seq<byte>) {
    |bs| == 65 && bs[64] in {0, 1, 27, 28} && 0 < BigEndian(bs[32..64]) < THRESHOLD
  }

  /**
   SigToVRS accepts exactly the acceptable byte strings, compared as 256-bit numbers, and
   returns their halves with v normalised to 27 or 28.
   */
  lemma SigToVRSIff(sigHex: string)
    ensures var bs := FromHex(Lower(sigHex));
            && (SigToVRS(sigHex).Ok? <==> Acceptable(bs))
            && (SigToVRS(sigHex) == Err(BadLength) <==> |bs| != 65)
            && (SigToVRS(sigHex) == Err(BadVParam) <==> |bs| == 65 && bs[64] !in {0, 1, 27, 28})
            && (SigToVRS(sigHex).Ok? ==>
                  var sig := SigToVRS(sigHex).value;
                  && sig.Vrs? && sig.v in {27, 28} && sig.v % 27 == bs[64] % 27
                  && sig.r == bs[..32] && sig.s == bs[32..64] && sig.r + sig.s == bs[..64])
  {
    var bs := FromHex(Lower(sigHex));
    if |bs| == 65 {
      StringCheckIsNumeric(bs[32..64]);
    }
  }

  /** Every spelling of the same bytes, in either case, with or without 0x, gives the same answer. */
  lemma SpellingDoesNotMatter(sigHex: string, bs: seq<byte>)
    requires Lower(sigHex) == Encode(bs) || Lower(sigHex) == "0x" + Encode(bs)
    ensures SigToVRS(sigHex).Ok? <==> Acceptable(bs)
    ensures SigToVRS(sigHex) == SigToVRS(Encode(bs))
  {
    LowerIdempotent(sigHex);
    FromHexReads(Lower(sigHex), bs);
    EncodeIsLower(bs);
    FromHexReads(Lower(Encode(bs)), bs);
    SigToVRSIff(sigHex);
  }

  /**
   EIP-2 (Specification, item 2) admits s up to half the curve order. Every accepted s is in
   that range, and of the range only the upper bound itself is turned away: the comparison
   in the code is not strict, although its error text promises s < n/2 + 1.
   */
  lemma AcceptedIsLowS(bs: seq<byte>)
    requires |bs| == 65 && bs[64] in {0, 1, 27, 28}
    ensures SigToVRS(Encode(bs)).Ok? <==>
            0 < BigEndian(bs[32..64]) <= SECP256K1_N / 2 && BigEndian(bs[32..64]) != SECP256K1_N / 2
    ensures SECP256K1_N / 2 == THRESHOLD
  {
    EncodeIsLower(bs);
    SpellingDoesNotMatter(Encode(bs), bs);
  }
}
