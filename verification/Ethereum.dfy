/**
 evm/ethereum_signature.go and the address handling of go-ethereum's `common`, over an
 abstract hash and an abstract public-key recovery.
 */
module Ethereum {
  import opened Wrappers
  import opened Hex
  import opened Types

  type Address = a: seq<byte> | |a| == 20 witness seq(20, _ => 0)

  /** `upper` says which letters of an address the EIP-55 checksum writes in upper case. */
  datatype Scheme = Scheme(
    keccak: seq<byte> -> Hash,
    recover: (Hash, seq<byte>) -> Option<Address>,
    upper: (Address, nat) -> bool
  ) {
    /** A recovery id of 27 or 28 gives nothing, or what 0 or 1 gives. */
    ghost predicate AgreesOnV() {
      forall h: Hash, rs: seq<byte>, v: byte | |rs| == 64 && v in {27, 28} && recover(h, rs + [v]).Some? ::
        recover(h, rs + [v]) == recover(h, rs + [v - 27])
    }
  }

  /** A validator as the contract sees it. */
  datatype EthValidator = EthValidator(address: Address, power: int)

  /** Go's conversion of an unsigned to a signed 64-bit number. */
  function Int64(x: int): int {
    if x < UINT64_LIMIT / 2 then x else x - UINT64_LIMIT
  }

  function EthValidators(members: seq<Member>): (vals: seq<EthValidator>)
    ensures |vals| == |members|
  {
    seq(|members|, i requires 0 <= i < |members| => EthValidator(AddressOf(members[i].evmAddress), Int64(members[i].power)))
  }

  /** Going through a signed 64-bit number keeps the powers below 2^63, and no other. */
  lemma PowersSurviveIff(members: seq<Member>)
    ensures forall i | 0 <= i < |members| ::
              && EthValidators(members)[i].address == AddressOf(members[i].evmAddress)
              && (EthValidators(members)[i].power == members[i].power <==> members[i].power < UINT64_LIMIT / 2)
  {
  }

  /** A key store holding one account; signing fails while the account is locked. */
  datatype KeyStore = KeyStore(address: Address, signHash: Hash -> Option<seq<byte>>)

  datatype EthError = NilKeyStore | SigningFailed | SignatureTooShort | RecoverFailed | SignatureNotMatching

  function Ascii(s: string): seq<byte> {
    seq(|s|, i requires 0 <= i < |s| => s[i] as int % 256)
  }

  /** The EIP-191 digest of a 32-byte message. */
  function ProtectedHash(scheme: Scheme, hash: seq<byte>): Hash {
    scheme.keccak([0x19] + Ascii("Ethereum Signed Message:") + [0x0a] + Ascii("32") + hash)
  }

  function NewEthereumSignature(scheme: Scheme, ks: Option<KeyStore>, hash: seq<byte>): Result<seq<byte>, EthError> {
    match ks
    case None => Err(NilKeyStore)
    case Some(store) =>
      match store.signHash(ProtectedHash(scheme, hash))
      case None => Err(SigningFailed)
      case Some(sig) => Ok(sig)
  }

  function EthAddressFromSignature(scheme: Scheme, hash: seq<byte>, signature: seq<byte>): Result<Address, EthError> {
    if |signature| < 65 then Err(SignatureTooShort)
    else
      match scheme.recover(ProtectedHash(scheme, hash), signature)
      case None => Err(RecoverFailed)
      case Some(a) => Ok(a)
  }

  /** The source compares checksummed texts, which HexAddressInjective shows is comparing addresses. */
  function ValidateEthereumSignature(scheme: Scheme, hash: seq<byte>, signature: seq<byte>, address: Address)
    : Option<EthError>
  {
    match EthAddressFromSignature(scheme, hash, signature)
    case Err(e) => Some(e)
    case Ok(a) => if HexAddress(scheme, a) != HexAddress(scheme, address) then Some(SignatureNotMatching) else None
  }

  /** The key store signs with the key of its address: recovery after signing gives it back. */
  ghost predicate SignsAsItself(scheme: Scheme, ks: KeyStore) {
    forall h: Hash :: ks.signHash(h).Some? ==>
      |ks.signHash(h).value| == 65 && scheme.recover(h, ks.signHash(h).value) == Some(ks.address)
  }

  // --- addresses as text ---

  function UpperChar(c: char): char {
    if 'a' <= c <= 'z' then c - 'a' + 'A' else c
  }

  /** common.Address.Hex: prefixed and checksummed. */
  function HexAddress(scheme: Scheme, a: Address): (s: string)
    ensures |s| == 42
  {
    var digits := Encode(a);
    "0x" + seq(40, i requires 0 <= i < 40 => if scheme.upper(a, i) then UpperChar(digits[i]) else digits[i])
  }

  /** common.IsHexAddress. */
  predicate IsHexAddress(s: string) {
    var t := if Has0x(s) then s[2..] else s;
    |t| == 40 && forall c | c in t :: DigitValue(c).Some?
  }

  /** common.HexToAddress: keeps the last 20 bytes, padding on the left. */
  function AddressOf(s: string): Address {
    var bs := FromHex(s);
    if |bs| >= 20 then bs[|bs| - 20..] else seq(20 - |bs|, _ => 0) + bs
  }

  lemma HexAddressLower(scheme: Scheme, a: Address)
    ensures Lower(HexAddress(scheme, a)) == "0x" + Encode(a)
    ensures IsHexAddress(HexAddress(scheme, a))
    ensures forall c | c in HexAddress(scheme, a) :: c != ':' && c != '/'
  {
    EncodeIsLower(a);
    var s, digits := HexAddress(scheme, a), Encode(a);
    forall i | 0 <= i < 40
      ensures LowerChar(s[i + 2]) == digits[i] && DigitValue(s[i + 2]).Some?
    {
      var c := digits[i];
      assert c in digits && Lower(digits)[i] == LowerChar(c);
      assert s[i + 2] == if scheme.upper(a, i) then UpperChar(c) else c;
    }
    assert Lower(s) == "0x" + digits;
    assert s[..2] == "0x";
    assert forall c | c in s[2..] :: DigitValue(c).Some?;
    assert s == s[..2] + s[2..];
  }

  /** The texts of addresses are those of 20 bytes in hex, in either case, with or without a prefix. */
  lemma IsHexAddressIff(s: string)
    ensures IsHexAddress(s) <==>
            exists a: Address :: Lower(s) == Encode(a) || Lower(s) == "0x" + Encode(a)
    ensures forall a: Address | Lower(s) == Encode(a) || Lower(s) == "0x" + Encode(a) :: AddressOf(s) == a
  {
    forall a: Address | Lower(s) == Encode(a) || Lower(s) == "0x" + Encode(a)
      ensures IsHexAddress(s) && AddressOf(s) == a
    {
      FromHexReads(s, a);
      TextIsHexAddress(s, a);
    }
    if IsHexAddress(s) {
      var a := AddressOfDigits(if Has0x(s) then s[2..] else s);
      if Has0x(s) {
        assert Lower(s) == "0x" + Lower(s[2..]);
      }
    }
  }

  lemma TextIsHexAddress(s: string, a: Address)
    requires Lower(s) == Encode(a) || Lower(s) == "0x" + Encode(a)
    ensures IsHexAddress(s)
  {
    EncodeIsLower(a);
    var t := s;
    if Lower(s) == Encode(a) {
      PlainHexHasNoPrefix(s, a);
    } else {
      assert Lower(s)[0] == '0' && Lower(s)[1] == 'x';
      assert Lower(s[2..]) == Lower(s)[2..] == Encode(a);
      t := s[2..];
    }
    DecodeIff(t, a);
    DigitsDecodeIff(t);
  }

  lemma AddressOfDigits(t: string) returns (a: Address)
    requires |t| == 40 && forall c | c in t :: DigitValue(c).Some?
    ensures Lower(t) == Encode(a)
  {
    DigitsDecodeIff(t);
    a := Decode(t).value;
    DecodeIff(t, a);
  }

  lemma AddressRoundTrip(scheme: Scheme, a: Address)
    ensures AddressOf(HexAddress(scheme, a)) == a
  {
    HexAddressLower(scheme, a);
    FromHexReads(HexAddress(scheme, a), a);
  }

  lemma HexAddressInjective(scheme: Scheme, a: Address, b: Address)
    ensures HexAddress(scheme, a) == HexAddress(scheme, b) <==> a == b
  {
    AddressRoundTrip(scheme, a);
    AddressRoundTrip(scheme, b);
  }

  /** A signature made by the account is accepted for its address and for no other. */
  lemma SignThenValidate(scheme: Scheme, ks: KeyStore, hash: seq<byte>, other: Address)
    requires SignsAsItself(scheme, ks) && NewEthereumSignature(scheme, Some(ks), hash).Ok?
    ensures var sig := NewEthereumSignature(scheme, Some(ks), hash).value;
            ValidateEthereumSignature(scheme, hash, sig, other).None? <==> other == ks.address
  {
    HexAddressInjective(scheme, ks.address, other);
    assert ks.signHash(ProtectedHash(scheme, hash)).Some?;
  }
}
