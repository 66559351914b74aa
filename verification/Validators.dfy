/**
 p2p/validators.go: what the DHT accepts under a key, and which of several values it keeps.
 */
module Validators {
  import opened Wrappers
  import opened Hex
  import opened Keys
  import opened Ethereum
  import opened Types

  datatype ValidationError =
    | BadKey(error: KeyError)
    | InvalidConfirmNamespace
    | InvalidEVMAddress
    | Undecodable
    | NotTheSameEVMAddress
    | BadDigest
    | BadSignature
    | NotSigned(cause: EthError)
    | EmptyValset
    | InvalidLatestValsetKey
    | NoValues
    | NoValidValueFound

  /** JSON, as far as it matters here. */
  datatype Codec<!T(!new)> = Codec(encode: T -> seq<byte>, decode: seq<byte> -> Option<T>) {
    ghost predicate RoundTrips() {
      forall t :: decode(encode(t)) == Some(t)
    }
  }

  /** The two confirm validators differ only in their namespace. */
  function Validate(kind: ConfirmKind, scheme: Scheme, codec: Codec<Confirm>, key: string, value: seq<byte>)
    : Option<ValidationError>
  {
    match ParseKey(key)
    case Err(e) => Some(BadKey(e))
    case Ok(f) =>
      if f.namespace != Namespace(kind) then Some(InvalidConfirmNamespace)
      else if !IsHexAddress(f.evmAddr) then Some(InvalidEVMAddress)
      else
        match codec.decode(value)
        case None => Some(Undecodable)
        case Some(c) => if Lower(c.ethAddress) != Lower(f.evmAddr) then Some(NotTheSameEVMAddress)
                        else CheckSignature(scheme, f.digest, c.signature, AddressOf(f.evmAddr))
  }

  function CheckSignature(scheme: Scheme, digest: string, signature: string, address: Address): Option<ValidationError> {
    match (Decode(Strip0x(digest)), Decode(Strip0x(signature)))
    case (None, _) => Some(BadDigest)
    case (_, None) => Some(BadSignature)
    case (Some(d), Some(sig)) =>
      match ValidateEthereumSignature(scheme, d, sig, address)
      case Some(e) => Some(NotSigned(e))
      case None => None
  }

  /** orchestrator.go: the confirm published for a digest. */
  function BuildConfirm(scheme: Scheme, ks: Option<KeyStore>, account: Address, digest: SignBytes): Result<Confirm, EthError> {
    match NewEthereumSignature(scheme, ks, digest)
    case Err(e) => Err(e)
    case Ok(sig) => Ok(Confirm(HexAddress(scheme, account), Encode(sig)))
  }

  lemma HashHexIsClean(h: SignBytes)
    ensures CleanField(HashHex(h)) && HashHex(h) != "" && Strip0x(HashHex(h)) == Encode(h)
  {
    EncodeIsLower(h);
    assert HashHex(h)[..2] == "0x" && HashHex(h)[2..] == Encode(h);
  }

  lemma EncodeIsNotStripped(bs: seq<byte>)
    ensures Strip0x(Encode(bs)) == Encode(bs)
  {
    EncodeIsLower(bs);
    if |Encode(bs)| > 2 {
      assert Encode(bs)[1] in Encode(bs);
      assert Encode(bs)[..2][1] == Encode(bs)[1];
    }
  }

  /** Whatever recovers to the account passes the validator under the account's key. */
  lemma RecoverableValidates(kind: ConfirmKind, scheme: Scheme, codec: Codec<Confirm>, account: Address,
                             nonce: nat, digest: SignBytes, sig: seq<byte>)
    requires codec.RoundTrips() && nonce < UINT64_LIMIT
    requires |sig| >= 65 && scheme.recover(ProtectedHash(scheme, digest), sig) == Some(account)
    ensures var c := Confirm(HexAddress(scheme, account), Encode(sig));
            Validate(kind, scheme, codec, ConfirmKey(kind, nonce, c.ethAddress, HashHex(digest)), codec.encode(c)).None?
  {
    hide HexAddress, Encode, Decode, Strip0x, Lower, ParseKey, ConfirmKey, AddressOf, IsHexAddress, HashHex;
    var c := Confirm(HexAddress(scheme, account), Encode(sig));
    HexAddressLower(scheme, account);
    HashHexIsClean(digest);
    ParseInvertsBuild(kind, nonce, c.ethAddress, HashHex(digest));
    assert codec.decode(codec.encode(c)) == Some(c);
    AddressRoundTrip(scheme, account);
    DecodeEncode(digest);
    EncodeIsNotStripped(sig);
    DecodeEncode(sig);
  }

  /**
   Every confirm an orchestrator builds, put under the key generated for it, passes its
   validator, for every nonce and whatever letters the address checksum capitalises.
   */
  lemma PublishedConfirmValidates(kind: ConfirmKind, scheme: Scheme, codec: Codec<Confirm>,
                                  ks: KeyStore, nonce: nat, digest: SignBytes)
    requires SignsAsItself(scheme, ks) && codec.RoundTrips() && nonce < UINT64_LIMIT
    requires BuildConfirm(scheme, Some(ks), ks.address, digest).Ok?
    ensures var c := BuildConfirm(scheme, Some(ks), ks.address, digest).value;
            Validate(kind, scheme, codec, ConfirmKey(kind, nonce, c.ethAddress, HashHex(digest)), codec.encode(c)).None?
  {
    hide Validate;
    RecoverableValidates(kind, scheme, codec, ks.address, nonce, digest, NewEthereumSignature(scheme, Some(ks), digest).value);
  }

  /** The address a validated value was signed by, over the digest in its key. */
  ghost predicate SignedBy(scheme: Scheme, address: Address, digest: seq<byte>, signature: string) {
    exists sig ::
      Decode(Strip0x(signature)) == Some(sig) && |sig| >= 65
      && scheme.recover(ProtectedHash(scheme, digest), sig) == Some(address)
  }

  /** The text spells the bytes in hex, in either case, with or without 0x in front. */
  predicate Spells(text: string, bs: seq<byte>) {
    Lower(text) == Encode(bs) || (|text| > 2 && text[0] == '0' && text[1] == 'x' && Lower(text[2..]) == Encode(bs))
  }

  lemma NoX(text: string, bs: seq<byte>)
    requires |text| >= 2 && text[1] == 'x'
    ensures Lower(text) != Encode(bs)
  {
    EncodeIsLower(bs);
    assert Lower(text)[1] == 'x';
    assert 'x' in Lower(text) && 'x' !in Encode(bs);
  }

  lemma SpellsIff(text: string, bs: seq<byte>)
    ensures Decode(Strip0x(text)) == Some(bs) <==> Spells(text, bs)
  {
    DecodeIff(Strip0x(text), bs);
    if |text| > 2 {
      assert text[..2] == "0x" <==> text[0] == '0' && text[1] == 'x';
      if text[..2] == "0x" {
        NoX(text, bs);
      }
    }
  }

  /** The value is a confirm of the address in the key, with a signature of it over the digest in the key. */
  ghost predicate ConfirmsKey(scheme: Scheme, codec: Codec<Confirm>, f: KeyFields, value: seq<byte>) {
    exists c, d, sig ::
      && IsHexAddress(f.evmAddr) && codec.decode(value) == Some(c) && Lower(c.ethAddress) == Lower(f.evmAddr)
      && Spells(f.digest, d) && Spells(c.signature, sig) && |sig| >= 65
      && scheme.recover(ProtectedHash(scheme, d), sig) == Some(AddressOf(f.evmAddr))
  }

  /** Exactly what the validators of confirms accept. */
  lemma ValidateIff(kind: ConfirmKind, scheme: Scheme, codec: Codec<Confirm>, key: string, value: seq<byte>)
    ensures Validate(kind, scheme, codec, key, value).None? <==>
            exists f, lead, number ::
              && LaidOut(key, lead, number, f) && ConfirmsKey(scheme, codec, f, value)
              && f.namespace == match kind case ValsetConfirms => "vc" case CommitmentConfirms => "dcc"
  {
    hide LaidOut, ParseKey, Validate, ConfirmsKey;
    ParsedValidates(kind, scheme, codec, key, value);
    if f, lead, number :| LaidOut(key, lead, number, f) && ConfirmsKey(scheme, codec, f, value) && f.namespace == Namespace(kind) {
      ParseKeyIff(key, f);
    }
    if ParseKey(key).Ok? {
      ParseKeyIff(key, ParseKey(key).value);
    }
  }

  lemma ParsedValidates(kind: ConfirmKind, scheme: Scheme, codec: Codec<Confirm>, key: string, value: seq<byte>)
    ensures Validate(kind, scheme, codec, key, value).None? <==>
            && ParseKey(key).Ok?
            && var f := ParseKey(key).value;
               f.namespace == Namespace(kind) && ConfirmsKey(scheme, codec, f, value)
  {
    hide ParseKey, IsHexAddress, Lower, AddressOf, CheckSignature, Namespace, ConfirmsKey;
    if ParseKey(key).Ok? {
      ConfirmsKeyIff(scheme, codec, ParseKey(key).value, value);
    }
  }

  lemma ConfirmsKeyIff(scheme: Scheme, codec: Codec<Confirm>, f: KeyFields, value: seq<byte>)
    ensures ConfirmsKey(scheme, codec, f, value) <==>
            && IsHexAddress(f.evmAddr) && codec.decode(value).Some?
            && var c := codec.decode(value).value;
               Lower(c.ethAddress) == Lower(f.evmAddr)
               && CheckSignature(scheme, f.digest, c.signature, AddressOf(f.evmAddr)).None?
  {
    hide IsHexAddress, Lower, AddressOf, Spells, Decode, Strip0x;
    if codec.decode(value).Some? {
      var c := codec.decode(value).value;
      forall d ensures Decode(Strip0x(f.digest)) == Some(d) <==> Spells(f.digest, d) { SpellsIff(f.digest, d); }
      forall sig ensures Decode(Strip0x(c.signature)) == Some(sig) <==> Spells(c.signature, sig) { SpellsIff(c.signature, sig); }
      forall a: Address ensures HexAddress(scheme, a) == HexAddress(scheme, AddressOf(f.evmAddr)) <==> a == AddressOf(f.evmAddr) {
        HexAddressInjective(scheme, a, AddressOf(f.evmAddr));
      }
      if Decode(Strip0x(f.digest)).Some? && Decode(Strip0x(c.signature)).Some? {
        var d, sig := Decode(Strip0x(f.digest)).value, Decode(Strip0x(c.signature)).value;
        assert Spells(f.digest, d) && Spells(c.signature, sig);
      }
    }
  }

  /** Nothing validates under somebody's key that this somebody did not sign. */
  lemma ValidatedWasSigned(kind: ConfirmKind, scheme: Scheme, codec: Codec<Confirm>,
                           nonce: nat, evmAddr: string, digest: SignBytes, value: seq<byte>)
    requires nonce < UINT64_LIMIT && evmAddr != "" && CleanField(evmAddr)
    requires Validate(kind, scheme, codec, ConfirmKey(kind, nonce, evmAddr, HashHex(digest)), value).None?
    ensures IsHexAddress(evmAddr) && codec.decode(value).Some?
    ensures var c := codec.decode(value).value;
            Lower(c.ethAddress) == Lower(evmAddr) && SignedBy(scheme, AddressOf(evmAddr), digest, c.signature)
  {
    HashHexIsClean(digest);
    ParseInvertsBuild(kind, nonce, evmAddr, HashHex(digest));
    DecodeEncode(digest);
    var sig := Decode(Strip0x(codec.decode(value).value.signature)).value;
    HexAddressInjective(scheme, EthAddressFromSignature(scheme, digest, sig).value, AddressOf(evmAddr));
  }

  /** The nonce in the key is parsed and then ignored: the digest alone ties a confirm to its attestation. */
  lemma NonceIsNotChecked(kind: ConfirmKind, scheme: Scheme, codec: Codec<Confirm>,
                          n1: nat, n2: nat, evmAddr: string, digest: string, value: seq<byte>)
    requires n1 < UINT64_LIMIT && n2 < UINT64_LIMIT
    requires evmAddr != "" && digest != "" && CleanField(evmAddr) && CleanField(digest)
    ensures Validate(kind, scheme, codec, ConfirmKey(kind, n1, evmAddr, digest), value)
         == Validate(kind, scheme, codec, ConfirmKey(kind, n2, evmAddr, digest), value)
  {
    ParseInvertsBuild(kind, n1, evmAddr, digest);
    ParseInvertsBuild(kind, n2, evmAddr, digest);
  }

  /**
   Select of the confirm validators, given what Validate answers under the key: the first
   valid value, and an error if there is none.
   */
  method SelectConfirm(validate: seq<byte> -> Option<ValidationError>, values: seq<seq<byte>>)
    returns (r: Result<nat, ValidationError>)
    ensures r.Ok? ==> r.value < |values| && validate(values[r.value]).None?
    ensures r.Ok? ==> forall i | 0 <= i < r.value :: validate(values[i]).Some?
    ensures r.Err? <==> forall i | 0 <= i < |values| :: validate(values[i]).Some?
    ensures r.Err? ==> r.error == if values == [] then NoValues else NoValidValueFound
  {
    if |values| == 0 {
      return Err(NoValues);
    }
    for index := 0 to |values|
      invariant forall i | 0 <= i < index :: validate(values[i]).Some?
    {
      if validate(values[index]).None? {
        return Ok(index);
      }
    }
    return Err(NoValidValueFound);
  }

  // --- the latest-valset slot ---

  function ValidateLatest(codec: Codec<LatestValset>, key: string, value: seq<byte>): Option<ValidationError> {
    match codec.decode(value)
    case None => Some(Undecodable)
    case Some(lv) =>
      if IsEmptyLatestValset(lv) then Some(EmptyValset)
      else if key != LatestValsetKey() then Some(InvalidLatestValsetKey)
      else None
  }

  /** The position of the last value that exceeds the one before it, counting zero as the value before the first. */
  function LastRise(nonces: seq<nat>): (j: nat)
    ensures nonces != [] ==> j < |nonces|
  {
    if |nonces| <= 1 then 0
    else
      var n := |nonces| - 1;
      if nonces[n] > nonces[n - 1] then n else LastRise(nonces[..n])
  }

  lemma RiseSoFar(nonces: seq<nat>, k: nat)
    requires k < |nonces|
    ensures LastRise(nonces[..0]) == 0
    ensures LastRise(nonces[..k + 1])
         == if nonces[k] > (if k == 0 then 0 else nonces[k - 1]) then k else LastRise(nonces[..k])
  {
    assert nonces[..k + 1][..k] == nonces[..k];
  }

  /** The nonces of encoded valsets, zero where nothing decodes. */
  function NoncesOf(codec: Codec<LatestValset>, values: seq<seq<byte>>): (nonces: seq<nat>)
    ensures |nonces| == |values|
  {
    seq<nat>(|values|, i requires 0 <= i < |values| => NonceOf(codec.decode(values[i])))
  }

  function NonceOf(decoded: Option<LatestValset>): nat {
    if decoded.Some? then decoded.value.nonce else 0
  }

  /** Select of the latest-valset validator: a running value that is always overwritten. */
  method SelectLatest(codec: Codec<LatestValset>, key: string, values: seq<seq<byte>>)
    returns (r: Result<nat, ValidationError>)
    ensures key != LatestValsetKey() ==> r == Err(InvalidLatestValsetKey)
    ensures key == LatestValsetKey() && values == [] ==> r == Err(NoValues)
    ensures key == LatestValsetKey() && values != [] ==>
              r == if exists i | 0 <= i < |values| :: codec.decode(values[i]).None? then Err(Undecodable)
                   else Ok(LastRise(NoncesOf(codec, values)))
  {
    if key != LatestValsetKey() {
      return Err(InvalidLatestValsetKey);
    }
    if |values| == 0 {
      return Err(NoValues);
    }
    hide LatestValsetKey, LastRise;
    var latestNonce := 0;
    var latestIndex := 0;
    ghost var nonces := NoncesOf(codec, values);
    assert forall i | 0 <= i < |values| :: nonces[i] == NonceOf(codec.decode(values[i]));
    hide NoncesOf;
    RiseSoFar(nonces, 0);
    for index := 0 to |values|
      invariant forall i | 0 <= i < index :: codec.decode(values[i]).Some?
      invariant latestNonce == if index == 0 then 0 else nonces[index - 1]
      invariant latestIndex == LastRise(nonces[..index])
    {
      var decoded := codec.decode(values[index]);
      if decoded.None? {
        return Err(Undecodable);
      }
      if decoded.value.nonce > latestNonce {
        latestIndex := index;
      }
      RiseSoFar(nonces, index);
      latestNonce := decoded.value.nonce;
    }
    assert nonces[..|values|] == nonces;
    return Ok(latestIndex);
  }

  ghost predicate IsGreatest(nonces: seq<nat>, m: nat) {
    m < |nonces| && forall k | 0 <= k < |nonces| :: nonces[k] <= nonces[m]
  }

  /** No value after position m exceeds the one before it. */
  predicate NoRiseAfter(nonces: seq<nat>, m: nat) {
    forall k | m < k < |nonces| :: nonces[k] <= nonces[k - 1]
  }

  /** The last rise is one, and no other follows. */
  lemma {:induction false} LastRiseIsLast(nonces: seq<nat>)
    requires nonces != []
    ensures NoRiseAfter(nonces, LastRise(nonces))
    ensures LastRise(nonces) > 0 ==> nonces[LastRise(nonces)] > nonces[LastRise(nonces) - 1]
  {
    var n := |nonces| - 1;
    if n > 0 && nonces[n] <= nonces[n - 1] {
      LastRiseIsLast(nonces[..n]);
      forall k | LastRise(nonces) < k < n ensures nonces[k] <= nonces[k - 1] {
        assert nonces[..n][k] <= nonces[..n][k - 1];
      }
    }
  }

  lemma {:induction false} NoRiseFalls(nonces: seq<nat>, m: nat, k: nat)
    requires NoRiseAfter(nonces, m) && m <= k < |nonces|
    ensures nonces[k] <= nonces[m]
  {
    if m < k {
      NoRiseFalls(nonces, m, k - 1);
    }
  }

  /**
   The documented promise, "the latest one ordered by nonces", is kept exactly when some
   greatest nonce is followed by no value that exceeds the one before it.
   */
  lemma SelectIsMaximumIff(nonces: seq<nat>)
    requires nonces != []
    ensures IsGreatest(nonces, LastRise(nonces)) <==> exists m :: IsGreatest(nonces, m) && NoRiseAfter(nonces, m)
  {
    LastRiseIsLast(nonces);
    if m :| IsGreatest(nonces, m) && NoRiseAfter(nonces, m) {
      NoRiseFalls(nonces, LastRise(nonces), m);
    }
  }

  /** It fails for three values: 4 is chosen over 5. */
  lemma SelectCanMissTheMaximum()
    ensures LastRise([5, 3, 4]) == 2 && !IsGreatest([5, 3, 4], 2)
  {
    var nonces: seq<nat> := [5, 3, 4];
    assert nonces[..2] == [5, 3] && nonces[0] > nonces[2];
  }

  /**
   A datastore holding one value offers its validator the new and the old value, in that
   order, and replaces the old one when the new one is selected.
   */
  function PutLatest(slot: Option<LatestValset>, put: LatestValset): Option<LatestValset> {
    match slot
    case None => Some(put)
    case Some(held) => if LastRise([put.nonce, held.nonce]) == 0 then Some(put) else slot
  }

  function PutAll(slot: Option<LatestValset>, puts: seq<LatestValset>): Option<LatestValset> {
    if puts == [] then slot else PutLatest(PutAll(slot, puts[..|puts| - 1]), puts[|puts| - 1])
  }

  /** With two values at a time the slot only rises, and ends at the greatest nonce ever put. */
  lemma {:induction false} SlotEndsAtMaximum(slot: Option<LatestValset>, puts: seq<LatestValset>)
    requires slot.Some? || puts != []
    ensures var end := PutAll(slot, puts);
            && end.Some?
            && (end == slot || end.value in puts)
            && (slot.Some? ==> slot.value.nonce <= end.value.nonce)
            && (forall lv | lv in puts :: lv.nonce <= end.value.nonce)
  {
    if puts != [] {
      var before, last := puts[..|puts| - 1], puts[|puts| - 1];
      assert puts == before + [last];
      if slot.Some? || before != [] {
        SlotEndsAtMaximum(slot, before);
        var held := PutAll(slot, before).value;
        assert LastRise([last.nonce, held.nonce]) == if held.nonce > last.nonce then 1 else 0 by {
          assert [last.nonce, held.nonce][..1] == [last.nonce];
        }
      }
    }
  }

  /** What comes to a slot, decoded, of what was put under the key: only that which validates. */
  function Admitted(codec: Codec<LatestValset>, key: string, puts: seq<seq<byte>>): seq<LatestValset> {
    if puts == [] then []
    else
      var before, last := Admitted(codec, key, puts[..|puts| - 1]), puts[|puts| - 1];
      if ValidateLatest(codec, key, last).None? then before + [codec.decode(last).value] else before
  }

  lemma {:induction false} AdmittedIff(codec: Codec<LatestValset>, key: string, puts: seq<seq<byte>>, lv: LatestValset)
    ensures lv in Admitted(codec, key, puts) <==>
            && key == LatestValsetKey() && !IsEmptyLatestValset(lv)
            && exists value :: value in puts && codec.decode(value) == Some(lv)
  {
    if puts != [] {
      var before, last := puts[..|puts| - 1], puts[|puts| - 1];
      AdmittedIff(codec, key, before, lv);
      assert puts == before + [last];
    }
  }

  /**
   Behind its validator a slot never holds an empty valset, holds nothing under any other key,
   and ends at the greatest nonce of the valsets put, the empty ones and the undecodable apart.
   */
  lemma {:induction false} SlotIsGated(codec: Codec<LatestValset>, key: string, puts: seq<seq<byte>>)
    ensures var end := PutAll(None, Admitted(codec, key, puts));
            && (end.Some? ==> key == LatestValsetKey() && !IsEmptyLatestValset(end.value))
            && (end.Some? ==> exists value :: value in puts && codec.decode(value) == end)
            && forall value | key == LatestValsetKey() && value in puts && codec.decode(value).Some?
                              && !IsEmptyLatestValset(codec.decode(value).value) ::
                 end.Some? && codec.decode(value).value.nonce <= end.value.nonce
  {
    hide IsEmptyLatestValset, Admitted;
    var admitted := Admitted(codec, key, puts);
    if admitted != [] {
      SlotEndsAtMaximum(None, admitted);
      AdmittedIff(codec, key, puts, PutAll(None, admitted).value);
    }
    forall value | key == LatestValsetKey() && value in puts && codec.decode(value).Some?
                   && !IsEmptyLatestValset(codec.decode(value).value)
      ensures codec.decode(value).value in admitted
    {
      AdmittedIff(codec, key, puts, codec.decode(value).value);
    }
  }
}
