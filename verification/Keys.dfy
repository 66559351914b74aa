/**
 The DHT keys of p2p/keys.go: "/<namespace>/<nonce in hex>:<EVM address>:<digest>".
 */
module Keys {
  import opened Wrappers
  import opened Hex

  datatype ConfirmKind = ValsetConfirms | CommitmentConfirms

  datatype KeyError = InvalidConfirmKey | EmptyNamespace | BadNonce | EmptyEVMAddr | EmptyDigest

  datatype KeyFields = KeyFields(namespace: string, nonce: nat, evmAddr: string, digest: string)

  function Namespace(kind: ConfirmKind): string {
    match kind
    case ValsetConfirms => "vc"
    case CommitmentConfirms => "dcc"
  }

  /** strconv.FormatUint(n, 16). */
  function FormatHex(n: nat): string {
    if n < 16 then [Digit(n)] else FormatHex(n / 16) + [Digit(n % 16)]
  }

  /** The number a digit string denotes, if every character is a digit of the base. */
  function DigitsValue(s: string, base: nat): Option<nat> {
    if s == "" then Some(0)
    else
      match (DigitsValue(s[..|s| - 1], base), DigitValue(s[|s| - 1]))
      case (Some(v), Some(d)) => if d < base then Some(v * base + d) else None
      case _ => None
  }

  /** strconv.ParseUint(s, base, 64) for the bases 10 and 16. */
  function ParseUint(s: string, base: nat): Option<nat> {
    match DigitsValue(s, base)
    case Some(v) => if s != "" && v < UINT64_LIMIT then Some(v) else None
    case None => None
  }

  /** strings.Split(s, sep) for a one-character separator. */
  function Split(s: string, sep: char): (parts: seq<string>)
    ensures parts != []
  {
    if s == "" then [""]
    else
      var rest := Split(s[1..], sep);
      if s[0] == sep then [""] + rest else [[s[0]] + rest[0]] + rest[1..]
  }

  function Join(parts: seq<string>, sep: char): string
    requires parts != []
  {
    if |parts| == 1 then parts[0] else parts[0] + [sep] + Join(parts[1..], sep)
  }

  predicate Free(parts: seq<string>, sep: char) {
    forall p | p in parts :: sep !in p
  }

  /** GetValsetConfirmKey and GetDataCommitmentConfirmKey. */
  function ConfirmKey(kind: ConfirmKind, nonce: nat, evmAddr: string, digest: string): string {
    "/" + Namespace(kind) + "/" + FormatHex(nonce) + ":" + evmAddr + ":" + digest
  }

  function LatestValsetKey(): string {
    "/lv/latest"
  }

  function ParseKey(key: string): Result<KeyFields, KeyError> {
    var parts := Split(key, '/');
    if |parts| != 3 then Err(InvalidConfirmKey)
    else if parts[1] == "" then Err(EmptyNamespace)
    else
      var values := Split(parts[2], ':');
      if |values| != 3 then Err(InvalidConfirmKey)
      else
        match ParseUint(values[0], 16)
        case None => Err(BadNonce)
        case Some(n) =>
          if values[1] == "" then Err(EmptyEVMAddr)
          else if values[2] == "" then Err(EmptyDigest)
          else Ok(KeyFields(parts[1], n, values[1], values[2]))
  }

  /** Splitting is the inverse of joining. */
  lemma {:induction false} SplitIff(s: string, parts: seq<string>, sep: char)
    requires parts != []
    ensures Split(s, sep) == parts <==> Join(parts, sep) == s && Free(parts, sep)
    decreases |s|
  {
    if s == "" {
      JoinEmpty(parts, sep);
    } else if parts[0] == "" {
      if |parts| > 1 {
        SplitIff(s[1..], parts[1..], sep);
        FreeCons(parts, sep);
        assert parts == [""] + parts[1..];
        assert Join(parts, sep) == [sep] + Join(parts[1..], sep);
        assert s == [s[0]] + s[1..];
        if Split(s, sep) == parts {
          assert s[0] == sep;
        }
      }
    } else {
      var c, cut := parts[0][0], [parts[0][1..]] + parts[1..];
      SplitIff(s[1..], cut, sep);
      FreeCons(parts, sep);
      FreeCons(cut, sep);
      assert cut[1..] == parts[1..];
      assert parts[0] == [c] + parts[0][1..];
      assert Join(parts, sep) == [c] + Join(cut, sep);
      assert s == [s[0]] + s[1..];
      if Split(s, sep) == parts {
        var rest := Split(s[1..], sep);
        assert s[0] != sep && parts[0] == [s[0]] + rest[0];
        assert rest == cut;
      }
      if Join(parts, sep) == s && Free(parts, sep) {
        assert c in parts[0];
        assert c == s[0] && Split(s[1..], sep) == cut;
        assert parts == [parts[0]] + parts[1..];
      }
    }
  }

  lemma JoinEmpty(parts: seq<string>, sep: char)
    requires parts != []
    ensures Join(parts, sep) == "" <==> parts == [""]
  {
    if |parts| > 1 {
      assert sep in Join(parts, sep);
    } else {
      assert parts == [parts[0]];
    }
  }

  lemma FreeCons(parts: seq<string>, sep: char)
    requires parts != []
    ensures Free(parts, sep) <==> sep !in parts[0] && Free(parts[1..], sep)
  {
    assert parts == [parts[0]] + parts[1..];
  }

  lemma Join3(a: string, b: string, c: string, sep: char)
    ensures Join([a, b, c], sep) == a + [sep] + b + [sep] + c
    ensures Free([a, b, c], sep) <==> sep !in a && sep !in b && sep !in c
  {
    assert [a, b, c][1..] == [b, c] && [b, c][1..] == [c];
    assert Join([b, c], sep) == b + [sep] + c;
    assert a + [sep] + (b + [sep] + c) == a + [sep] + b + [sep] + c;
    if sep !in a && sep !in b && sep !in c {
      forall p | p in [a, b, c] ensures sep !in p { assert p == a || p == b || p == c; }
    }
  }

  // --- numbers as text ---

  function Pow(base: nat, k: nat): nat {
    if k == 0 then 1 else base * Pow(base, k - 1)
  }

  /** Nothing but digits of the base, and at least one. */
  predicate IsNumeral(s: string, base: nat) {
    s != "" && forall i | 0 <= i < |s| :: DigitValue(s[i]).Some? && DigitValue(s[i]).value < base
  }

  /** The first k digits, each times the power of the base that belongs to its place. */
  function PlaceSum(s: string, base: nat, k: nat): nat
    requires IsNumeral(s, base) && k <= |s|
  {
    if k == 0 then 0 else PlaceSum(s, base, k - 1) + DigitValue(s[k - 1]).value * Pow(base, |s| - k)
  }

  /** The number a numeral denotes: the sum of its digits, each times base^(|s|-1-i) for its index i. */
  function Denoted(s: string, base: nat): nat
    requires IsNumeral(s, base)
  {
    PlaceSum(s, base, |s|)
  }

  /** One more digit shifts the places of those before it. */
  lemma {:induction false} PlaceSumShifts(s: string, base: nat, k: nat)
    requires |s| >= 2 && IsNumeral(s, base) && IsNumeral(s[..|s| - 1], base) && k < |s|
    ensures PlaceSum(s, base, k) == base * PlaceSum(s[..|s| - 1], base, k)
  {
    if k > 0 {
      var t := s[..|s| - 1];
      PlaceSumShifts(s, base, k - 1);
      var d, p := DigitValue(s[k - 1]).value, Pow(base, |t| - k);
      assert t[k - 1] == s[k - 1] && Pow(base, |s| - k) == base * p;
      Distribute(base, PlaceSum(t, base, k - 1), d, p);
    }
  }

  lemma Distribute(b: int, x: int, d: int, p: int)
    ensures b * x + d * (b * p) == b * (x + d * p)
  {
    assert d * (b * p) == b * (d * p);
  }

  lemma NumeralStep(s: string, base: nat)
    requires s != ""
    ensures var n := |s| - 1;
            IsNumeral(s, base) <==>
              (n == 0 || IsNumeral(s[..n], base)) && DigitValue(s[n]).Some? && DigitValue(s[n]).value < base
  {
    hide DigitValue;
    var n := |s| - 1;
    assert forall i | 0 <= i < n :: s[..n][i] == s[i];
  }

  lemma DenotedStep(s: string, base: nat)
    requires IsNumeral(s, base)
    ensures |s| > 1 ==> IsNumeral(s[..|s| - 1], base)
    ensures Denoted(s, base) == (if |s| == 1 then 0 else base * Denoted(s[..|s| - 1], base)) + DigitValue(s[|s| - 1]).value
  {
    NumeralStep(s, base);
    hide DigitValue;
    var n := |s| - 1;
    var d := DigitValue(s[n]).value;
    assert PlaceSum(s, base, n + 1) == PlaceSum(s, base, n) + d * Pow(base, 0);
    assert Pow(base, 0) == 1 && d * 1 == d;
    if n > 0 {
      PlaceSumShifts(s, base, n);
    } else {
      assert PlaceSum(s, base, 0) == 0;
    }
  }

  lemma {:induction false} DigitsValueIff(s: string, base: nat)
    requires s != ""
    ensures DigitsValue(s, base).Some? <==> IsNumeral(s, base)
    ensures IsNumeral(s, base) ==> DigitsValue(s, base) == Some(Denoted(s, base))
  {
    hide IsNumeral, Denoted, DigitValue;
    var t := s[..|s| - 1];
    NumeralStep(s, base);
    if t != "" {
      DigitsValueIff(t, base);
    } else {
      assert DigitsValue(t, base) == Some(0);
    }
    if IsNumeral(s, base) {
      DenotedStep(s, base);
    }
  }

  /** ParseUint accepts exactly the numerals of 64-bit numbers, and returns what they denote. */
  lemma ParseUintIff(s: string, base: nat, n: nat)
    ensures ParseUint(s, base) == Some(n) <==> IsNumeral(s, base) && Denoted(s, base) == n && n < UINT64_LIMIT
  {
    if s != "" {
      DigitsValueIff(s, base);
    }
  }

  /** What FormatUint writes: lower-case digits, no leading zero, and what reads back as the number. */
  lemma {:induction false} FormatHexDigits(n: nat)
    ensures DigitsValue(FormatHex(n), 16) == Some(n)
    ensures FormatHex(n) != "" && '/' !in FormatHex(n) && ':' !in FormatHex(n)
    ensures Lower(FormatHex(n)) == FormatHex(n) && (n > 0 ==> FormatHex(n)[0] != '0')
  {
    if n < 16 {
      assert FormatHex(n)[..0] == "";
    } else {
      FormatHexDigits(n / 16);
      var s := FormatHex(n);
      assert s[..|s| - 1] == FormatHex(n / 16);
      assert n / 16 * 16 + n % 16 == n;
    }
  }

  /** Base-16 round trip for every 64-bit number. */
  lemma NumberRoundTrip(n: nat)
    requires n < UINT64_LIMIT
    ensures ParseUint(FormatHex(n), 16) == Some(n)
  {
    FormatHexDigits(n);
  }

  /** How a key that parses is laid out; `lead` is whatever stands before the first slash. */
  ghost predicate LaidOut(key: string, lead: string, number: string, f: KeyFields) {
    && key == lead + "/" + f.namespace + "/" + (number + ":" + f.evmAddr + ":" + f.digest)
    && '/' !in lead && '/' !in f.namespace && '/' !in number && '/' !in f.evmAddr && '/' !in f.digest
    && ':' !in number && ':' !in f.evmAddr && ':' !in f.digest
    && f.namespace != "" && f.evmAddr != "" && f.digest != ""
    && ParseUint(number, 16) == Some(f.nonce)
  }

  lemma LaidOutParses(key: string, lead: string, number: string, f: KeyFields)
    requires LaidOut(key, lead, number, f)
    ensures ParseKey(key) == Ok(f)
  {
    var tail := number + ":" + f.evmAddr + ":" + f.digest;
    Join3(lead, f.namespace, tail, '/');
    SplitIff(key, [lead, f.namespace, tail], '/');
    Join3(number, f.evmAddr, f.digest, ':');
    SplitIff(tail, [number, f.evmAddr, f.digest], ':');
  }

  /** Exactly the keys that ParseKey accepts, and with which fields. */
  lemma ParseKeyIff(key: string, f: KeyFields)
    ensures ParseKey(key) == Ok(f) <==> exists lead, number :: LaidOut(key, lead, number, f)
  {
    if ParseKey(key) == Ok(f) {
      var parts := Split(key, '/');
      var values := Split(parts[2], ':');
      SplitIff(key, parts, '/');
      SplitIff(parts[2], values, ':');
      assert parts == [parts[0], parts[1], parts[2]] && values == [values[0], values[1], values[2]];
      Join3(parts[0], parts[1], parts[2], '/');
      Join3(values[0], values[1], values[2], ':');
      assert forall v | v in values :: forall c | c in v :: c in parts[2];
      assert LaidOut(key, parts[0], values[0], f);
    }
    forall lead, number | LaidOut(key, lead, number, f) ensures ParseKey(key) == Ok(f) {
      LaidOutParses(key, lead, number, f);
    }
  }

  /** The text of the two kinds of key. */
  lemma KeyText(nonce: nat, evmAddr: string, digest: string)
    ensures exists number ::
              && IsNumeral(number, 16) && Denoted(number, 16) == nonce && Lower(number) == number
              && (nonce > 0 ==> number[0] != '0')
              && ConfirmKey(ValsetConfirms, nonce, evmAddr, digest) == "/vc/" + number + ":" + evmAddr + ":" + digest
              && ConfirmKey(CommitmentConfirms, nonce, evmAddr, digest) == "/dcc/" + number + ":" + evmAddr + ":" + digest
  {
    var number := FormatHex(nonce);
    FormatHexDigits(nonce);
    DigitsValueIff(number, 16);
    assert "/" + "vc" + "/" == "/vc/" && "/" + "dcc" + "/" == "/dcc/";
  }

  predicate CleanField(s: string) {
    '/' !in s && ':' !in s
  }

  /** ParseKey inverts both key builders. */
  lemma ParseInvertsBuild(kind: ConfirmKind, nonce: nat, evmAddr: string, digest: string)
    requires nonce < UINT64_LIMIT
    requires CleanField(evmAddr) && CleanField(digest) && evmAddr != "" && digest != ""
    ensures ParseKey(ConfirmKey(kind, nonce, evmAddr, digest)) == Ok(KeyFields(Namespace(kind), nonce, evmAddr, digest))
  {
    NumberRoundTrip(nonce);
    FormatHexDigits(nonce);
    var key := ConfirmKey(kind, nonce, evmAddr, digest);
    assert key == "" + "/" + Namespace(kind) + "/" + (FormatHex(nonce) + ":" + evmAddr + ":" + digest);
    LaidOutParses(key, "", FormatHex(nonce), KeyFields(Namespace(kind), nonce, evmAddr, digest));
  }

  /** Two builder calls give the same key only for the same kind, nonce, address and digest. */
  lemma KeysNeverCollide(k1: ConfirmKind, n1: nat, a1: string, d1: string,
                         k2: ConfirmKind, n2: nat, a2: string, d2: string)
    requires CleanField(a1) && CleanField(d1) && CleanField(a2) && CleanField(d2)
    requires ConfirmKey(k1, n1, a1, d1) == ConfirmKey(k2, n2, a2, d2)
    ensures k1 == k2 && n1 == n2 && a1 == a2 && d1 == d2
  {
    BuiltParts(k1, n1, a1, d1);
    BuiltParts(k2, n2, a2, d2);
    assert Namespace(k1)[0] == Namespace(k2)[0];
    FormatHexDigits(n1);
    FormatHexDigits(n2);
    var p, q := [FormatHex(n1), a1, d1], [FormatHex(n2), a2, d2];
    assert p[0] == q[0] && p[1] == q[1] && p[2] == q[2];
  }

  lemma BuiltParts(kind: ConfirmKind, nonce: nat, evmAddr: string, digest: string)
    requires CleanField(evmAddr) && CleanField(digest)
    ensures Split(ConfirmKey(kind, nonce, evmAddr, digest), '/')
         == ["", Namespace(kind), FormatHex(nonce) + ":" + evmAddr + ":" + digest]
    ensures Split(FormatHex(nonce) + ":" + evmAddr + ":" + digest, ':') == [FormatHex(nonce), evmAddr, digest]
  {
    FormatHexDigits(nonce);
    var tail := FormatHex(nonce) + ":" + evmAddr + ":" + digest;
    var key := ConfirmKey(kind, nonce, evmAddr, digest);
    assert key == "" + "/" + Namespace(kind) + "/" + tail;
    Join3("", Namespace(kind), tail, '/');
    SplitIff(key, ["", Namespace(kind), tail], '/');
    Join3(FormatHex(nonce), evmAddr, digest, ':');
    SplitIff(tail, [FormatHex(nonce), evmAddr, digest], ':');
  }
}
