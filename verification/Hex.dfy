/**
 Hexadecimal text as Go's `encoding/hex` and go-ethereum's `common` read and write it.
 A Go string is a sequence of bytes; here one character stands for one byte, and case
 mapping is that of ASCII.
 */
module Hex {
  import opened Wrappers

  type byte = x: int | 0 <= x < 256

  /** A 32-byte digest. */
  type Hash = h: seq<byte> | |h| == 32 witness seq(32, _ => 0)

  /**
   What is signed. It stands for a hash without collisions, so its length is not fixed: no
   function into 32 bytes is injective.
   */
  type SignBytes = d: seq<byte> | d != [] witness [0]

  function Digit(d: int): (c: char)
    requires 0 <= d < 16
    ensures LowerChar(c) == c && c != 'x'
  {
    if d < 10 then '0' + d as char else 'a' + (d - 10) as char
  }

  function DigitValue(c: char): (d: Option<int>)
    ensures d.Some? ==> 0 <= d.value < 16 && LowerChar(c) == Digit(d.value)
  {
    if '0' <= c <= '9' then Some(c as int - '0' as int)
    else if 'a' <= c <= 'f' then Some(c as int - 'a' as int + 10)
    else if 'A' <= c <= 'F' then Some(c as int - 'A' as int + 10)
    else None
  }

  function LowerChar(c: char): char {
    if 'A' <= c <= 'Z' then c - 'A' + 'a' else c
  }

  function Lower(s: string): (t: string)
    ensures |t| == |s|
  {
    seq(|s|, i requires 0 <= i < |s| => LowerChar(s[i]))
  }

  /** hex.EncodeToString: two lower-case digits for each byte. */
  function Encode(bs: seq<byte>): (s: string)
    ensures |s| == 2 * |bs|
  {
    if bs == [] then "" else [Digit(bs[0] / 16), Digit(bs[0] % 16)] + Encode(bs[1..])
  }

  /** hex.DecodeString: an odd length or any other character is an error. */
  function Decode(s: string): (r: Option<seq<byte>>)
    ensures r.Some? ==> |s| == 2 * |r.value|
  {
    if s == "" then Some([])
    else if |s| == 1 then None
    else
      match (DigitValue(s[0]), DigitValue(s[1]), Decode(s[2..]))
      case (Some(h), Some(l), Some(rest)) => Some([16 * h + l] + rest)
      case _ => None
  }

  /** common.Hex2Bytes: the bytes decoded before the first malformed pair; the error is dropped. */
  function DecodePrefix(s: string): seq<byte> {
    if |s| < 2 then []
    else
      match (DigitValue(s[0]), DigitValue(s[1]))
      case (Some(h), Some(l)) => [16 * h + l] + DecodePrefix(s[2..])
      case _ => []
  }

  predicate Has0x(s: string) {
    |s| >= 2 && s[0] == '0' && (s[1] == 'x' || s[1] == 'X')
  }

  /** common.FromHex: optional prefix, odd lengths padded on the left. */
  function FromHex(s: string): seq<byte> {
    var t := if Has0x(s) then s[2..] else s;
    DecodePrefix(if |t| % 2 == 1 then "0" + t else t)
  }

  /** common.Hash.Hex and String. */
  function HashHex(h: seq<byte>): (s: string)
    ensures |s| == 2 + 2 * |h|
  {
    "0x" + Encode(h)
  }

  /** The validators strip a lower-case prefix, and only from text longer than it. */
  function Strip0x(s: string): string {
    if |s| > 2 && s[..2] == "0x" then s[2..] else s
  }

  lemma DecodeFirst(s: string, bs: seq<byte>)
    requires |s| >= 2 && bs != []
    ensures Decode(s) == Some(bs) <==>
            && DigitValue(s[0]) == Some(bs[0] / 16) && DigitValue(s[1]) == Some(bs[0] % 16)
            && Decode(s[2..]) == Some(bs[1..])
  {
    hide DigitValue;
    var high, low, rest := DigitValue(s[0]), DigitValue(s[1]), Decode(s[2..]);
    if high.Some? && low.Some? && rest.Some? {
      Nibbles(bs[0], high.value, low.value);
      var b: byte := 16 * high.value + low.value;
      assert Decode(s) == Some([b] + rest.value);
      Prepended(b, rest.value, bs);
    }
  }

  lemma Nibbles(b: int, high: int, low: int)
    requires 0 <= low < 16
    ensures 16 * high + low == b <==> high == b / 16 && low == b % 16
  {
  }

  lemma Prepended(b: byte, rest: seq<byte>, bs: seq<byte>)
    requires bs != []
    ensures [b] + rest == bs <==> b == bs[0] && rest == bs[1..]
  {
    assert ([b] + rest)[1..] == rest && bs == [bs[0]] + bs[1..];
  }

  lemma EncodeFirst(s: string, bs: seq<byte>)
    requires |s| >= 2 && bs != []
    ensures Lower(s) == Encode(bs) <==>
            && LowerChar(s[0]) == Digit(bs[0] / 16) && LowerChar(s[1]) == Digit(bs[0] % 16)
            && Lower(s[2..]) == Encode(bs[1..])
  {
    hide LowerChar, Digit;
    assert Lower(s) == [LowerChar(s[0]), LowerChar(s[1])] + Lower(s[2..]);
    var text := Encode(bs);
    assert text[0] == Digit(bs[0] / 16) && text[1] == Digit(bs[0] % 16) && text[2..] == Encode(bs[1..]);
    assert Lower(s)[2..] == Lower(s[2..]);
  }

  /** Decoding is the inverse of encoding, and ignores case and nothing else. */
  lemma {:induction false} DecodeIff(s: string, bs: seq<byte>)
    ensures Decode(s) == Some(bs) <==> Lower(s) == Encode(bs)
    decreases |s|
  {
    if |s| >= 2 && bs != [] {
      hide DigitValue, LowerChar, Digit, Lower, Encode, Decode;
      DecodeIff(s[2..], bs[1..]);
      DecodeFirst(s, bs);
      EncodeFirst(s, bs);
      LowerDigit(s[0], bs[0] / 16);
      LowerDigit(s[1], bs[0] % 16);
    }
  }

  lemma LowerDigit(c: char, d: int)
    requires 0 <= d < 16
    ensures LowerChar(c) == Digit(d) <==> DigitValue(c) == Some(d)
  {
  }

  lemma LowerIdempotent(s: string)
    ensures Lower(Lower(s)) == Lower(s)
  {
  }

  lemma {:induction false} EncodeIsLower(bs: seq<byte>)
    ensures Lower(Encode(bs)) == Encode(bs)
    ensures forall c | c in Encode(bs) :: DigitValue(c).Some? && c != 'x'
  {
    if bs != [] {
      EncodeIsLower(bs[1..]);
    }
  }

  lemma DecodeEncode(bs: seq<byte>)
    ensures Decode(Encode(bs)) == Some(bs)
  {
    EncodeIsLower(bs);
    DecodeIff(Encode(bs), bs);
  }

  /** Text with no malformed character decodes alike with and without error reporting. */
  lemma {:induction false} DecodePrefixOfWhole(s: string)
    requires Decode(s).Some?
    ensures DecodePrefix(s) == Decode(s).value
  {
    if |s| >= 2 {
      DecodePrefixOfWhole(s[2..]);
    }
  }

  /** The text starts with the bytes in hex, in either case, and no further pair of digits follows. */
  predicate StartsWith(s: string, bs: seq<byte>) {
    var n := 2 * |bs|;
    && |s| >= n && Lower(s[..n]) == Encode(bs)
    && (|s| < n + 2 || DigitValue(s[n]).None? || DigitValue(s[n + 1]).None?)
  }

  /** Decoding fails exactly on an odd length or a character that is no digit. */
  lemma {:induction false} DigitsDecodeIff(s: string)
    ensures Decode(s).Some? <==> |s| % 2 == 0 && forall c | c in s :: DigitValue(c).Some?
  {
    hide DigitValue;
    if |s| >= 2 {
      DigitsDecodeIff(s[2..]);
      assert s == [s[0], s[1]] + s[2..];
    }
  }

  /** What is decoded of a text, malformed or not: the pairs of digits that it starts with. */
  lemma {:induction false} DecodePrefixIff(s: string, bs: seq<byte>)
    ensures DecodePrefix(s) == bs <==> StartsWith(s, bs)
  {
    hide DigitValue, LowerChar, Digit;
    if |s| >= 2 && DigitValue(s[0]).Some? && DigitValue(s[1]).Some? {
      var high, low := DigitValue(s[0]).value, DigitValue(s[1]).value;
      if bs == [] {
        assert s[..0] == "" && Encode([]) == "";
      } else {
        DecodePrefixIff(s[2..], bs[1..]);
        Nibbles(bs[0], high, low);
        Prepended(16 * high + low, DecodePrefix(s[2..]), bs);
        LowerDigit(s[0], bs[0] / 16);
        LowerDigit(s[1], bs[0] % 16);
        StartsWithFirst(s, bs);
      }
    } else {
      NoPairStarts(s, bs);
    }
  }

  lemma StartsWithFirst(s: string, bs: seq<byte>)
    requires |s| >= 2 && bs != []
    ensures StartsWith(s, bs) <==>
            && LowerChar(s[0]) == Digit(bs[0] / 16) && LowerChar(s[1]) == Digit(bs[0] % 16)
            && StartsWith(s[2..], bs[1..])
  {
    hide DigitValue, LowerChar, Digit, Lower, Encode;
    var n, rest := 2 * |bs|, s[2..];
    assert 2 * |bs[1..]| == n - 2 && |rest| == |s| - 2;
    if |s| >= n {
      EncodeFirst(s[..n], bs);
      assert s[..n][2..] == rest[..n - 2] && s[..n][0] == s[0] && s[..n][1] == s[1];
      if |s| >= n + 2 {
        assert rest[n - 2] == s[n] && rest[n - 1] == s[n + 1];
      }
    }
  }

  lemma NoPairStarts(s: string, bs: seq<byte>)
    requires |s| < 2 || DigitValue(s[0]).None? || DigitValue(s[1]).None?
    ensures StartsWith(s, bs) <==> bs == []
  {
    if bs == [] {
      assert s[..0] == "";
    } else if |s| >= 2 {
      StartsWithFirst(s, bs);
      LowerDigit(s[0], bs[0] / 16);
      LowerDigit(s[1], bs[0] % 16);
    }
  }

  /** An upper- or lower-case spelling of some bytes, prefixed or not, is read back by FromHex. */
  lemma FromHexReads(s: string, bs: seq<byte>)
    requires Lower(s) == Encode(bs) || Lower(s) == "0x" + Encode(bs)
    ensures FromHex(s) == bs
  {
    hide Encode, DecodePrefix;
    EncodeIsLower(bs);
    if Lower(s) == Encode(bs) {
      PlainHexHasNoPrefix(s, bs);
      WholeHexReads(s, bs);
    } else {
      assert Lower(s)[0] == '0' && Lower(s)[1] == 'x';
      assert Lower(s[2..]) == Lower(s)[2..] == Encode(bs);
      WholeHexReads(s[2..], bs);
    }
  }

  lemma WholeHexReads(t: string, bs: seq<byte>)
    requires Lower(t) == Encode(bs)
    ensures |t| == 2 * |bs| && DecodePrefix(t) == bs
  {
    DecodeIff(t, bs);
    DecodePrefixOfWhole(t);
  }

  lemma PlainHexHasNoPrefix(s: string, bs: seq<byte>)
    requires Lower(s) == Encode(bs)
    ensures !Has0x(s)
  {
    EncodeIsLower(bs);
    if |s| >= 2 {
      assert LowerChar(s[1]) == Lower(s)[1];
    }
  }

  // --- numbers written big-endian ---

  function Pow256(n: nat): (p: nat)
    ensures p >= 1
  {
    if n == 0 then 1 else 256 * Pow256(n - 1)
  }

  function BigEndian(bs: seq<byte>): nat {
    if bs == [] then 0 else bs[0] * Pow256(|bs| - 1) + BigEndian(bs[1..])
  }

  lemma {:induction false} BigEndianBound(bs: seq<byte>)
    ensures BigEndian(bs) < Pow256(|bs|)
  {
    if bs != [] {
      BigEndianBound(bs[1..]);
      DigitsCompare(bs[0], BigEndian(bs[1..]), 256, 0, Pow256(|bs| - 1));
    }
  }

  /** Go's `<` on strings. */
  predicate LexLess(s: string, t: string) {
    t != "" && (s == "" || s[0] < t[0] || (s[0] == t[0] && LexLess(s[1..], t[1..])))
  }

  /** Comparing equally long lower-case hex text compares the numbers it denotes. */
  lemma {:induction false} LexIsNumeric(a: seq<byte>, b: seq<byte>)
    requires |a| == |b|
    ensures LexLess(Encode(a), Encode(b)) <==> BigEndian(a) < BigEndian(b)
  {
    if a != [] {
      LexIsNumeric(a[1..], b[1..]);
      var ea, eb := Encode(a), Encode(b);
      assert ea[1..][1..] == Encode(a[1..]) && eb[1..][1..] == Encode(b[1..]);
      assert ea[1..][0] == Digit(a[0] % 16) && eb[1..][0] == Digit(b[0] % 16);
      LeadingByteDecides(a, b);
    }
  }

  lemma LeadingByteDecides(a: seq<byte>, b: seq<byte>)
    requires |a| == |b| > 0
    ensures a[0] < b[0] ==> BigEndian(a) < BigEndian(b)
    ensures a[0] > b[0] ==> BigEndian(a) > BigEndian(b)
    ensures a[0] == b[0] ==> (BigEndian(a) < BigEndian(b) <==> BigEndian(a[1..]) < BigEndian(b[1..]))
  {
    var p, ra, rb := Pow256(|a| - 1), BigEndian(a[1..]), BigEndian(b[1..]);
    assert BigEndian(a) == a[0] * p + ra && BigEndian(b) == b[0] * p + rb;
    BigEndianBound(a[1..]);
    BigEndianBound(b[1..]);
    DigitsCompare(a[0], ra, b[0], rb, p);
    DigitsCompare(b[0], rb, a[0], ra, p);
  }

  lemma DigitsCompare(a: nat, ra: nat, b: nat, rb: nat, p: nat)
    requires ra < p && rb < p
    ensures a < b ==> a * p + ra < b * p + rb
  {
    if a < b {
      assert b * p == (a + 1) * p + (b - a - 1) * p;
    }
  }

  lemma {:induction false} BigEndianZero(bs: seq<byte>)
    ensures BigEndian(bs) == 0 <==> forall i | 0 <= i < |bs| :: bs[i] == 0
  {
    if bs != [] {
      var rest := bs[1..];
      BigEndianZero(rest);
      assert bs == [bs[0]] + rest;
      BigEndianBound(rest);
      DigitsCompare(0, 0, bs[0], BigEndian(rest), Pow256(|rest|));
      if BigEndian(bs) == 0 {
        assert bs[0] == 0;
      }
    }
  }

  lemma {:induction false} EncodeConcat(a: seq<byte>, b: seq<byte>)
    ensures Encode(a + b) == Encode(a) + Encode(b)
  {
    if a == [] {
      assert a + b == b;
    } else {
      EncodeConcat(a[1..], b);
      assert (a + b)[1..] == a[1..] + b;
    }
  }

  lemma {:induction false} Pow256Sum(m: nat, n: nat)
    ensures Pow256(m + n) == Pow256(m) * Pow256(n)
  {
    if m > 0 {
      Pow256Sum(m - 1, n);
      Regroup(0, Pow256(m - 1), Pow256(n), 0);
    }
  }

  lemma Regroup(d: nat, p: nat, q: nat, v: nat)
    ensures d * (p * q) + v * q == (d * p + v) * q
    ensures 256 * (p * q) == (256 * p) * q
  {
  }

  lemma {:induction false} BigEndianConcat(a: seq<byte>, b: seq<byte>)
    ensures BigEndian(a + b) == BigEndian(a) * Pow256(|b|) + BigEndian(b)
  {
    if a == [] {
      assert a + b == b;
    } else {
      BigEndianConcat(a[1..], b);
      assert (a + b)[1..] == a[1..] + b;
      Pow256Sum(|a| - 1, |b|);
      Regroup(a[0], Pow256(|a| - 1), Pow256(|b|), BigEndian(a[1..]));
    }
  }
}
