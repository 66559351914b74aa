/** evm/evm_client.go: what is handed to the contract. */
module EvmClient {
  import opened Wrappers
  import Hex
  import opened Types
  import opened Ethereum
  import opened Signature
  import opened Protocol

  datatype EvmError = InvalidAddress

  /** ethValset: the members in their order, with their addresses decoded. */
  method EthValset(members: seq<Member>) returns (r: Result<seq<EthValidator>, EvmError>)
    ensures r.Ok? <==> forall i | 0 <= i < |members| :: IsHexAddress(members[i].evmAddress)
    ensures r.Ok? ==> r.value == EthValidators(members) && |r.value| == |members|
    ensures r.Ok? ==> forall i | 0 <= i < |members| :: r.value[i].address == AddressOf(members[i].evmAddress)
    ensures r.Ok? ==> forall i | 0 <= i < |members| ::
              r.value[i].power == members[i].power <==> members[i].power < UINT64_LIMIT / 2
  {
    var ethVals := new EthValidator[|members|](_ => EthValidator(seq(20, _ => 0), 0));
    for i := 0 to |members|
      invariant forall j | 0 <= j < i ::
                  && IsHexAddress(members[j].evmAddress)
                  && ethVals[j] == EthValidator(AddressOf(members[j].evmAddress), Int64(members[j].power))
    {
      if !IsHexAddress(members[i].evmAddress) {
        return Err(InvalidAddress);
      }
      ethVals[i] := EthValidator(AddressOf(members[i].evmAddress), Int64(members[i].power));
    }
    return Ok(ethVals[..]);
  }

  method UpdateValidatorSet(newNonce: nat, currentValset: Valset, newValset: Valset, slots: seq<Vrs>)
    returns (r: Result<Tx, EvmError>)
    ensures r.Ok? <==> forall i | 0 <= i < |currentValset.members| :: IsHexAddress(currentValset.members[i].evmAddress)
    ensures r.Ok? ==> r.value == Tx(newNonce, NewValset(newValset.members),
                                    if newValset.nonce == 1 then 0 else currentValset.nonce,
                                    currentValset.members, EthValidators(currentValset.members), slots)
  {
    var ethVals := EthValset(currentValset.members);
    if ethVals.Err? {
      return Err(ethVals.error);
    }
    var currentNonce := if newValset.nonce == 1 then 0 else currentValset.nonce;
    return Ok(Tx(newNonce, NewValset(newValset.members), currentNonce, currentValset.members, ethVals.value, slots));
  }

  method SubmitDataRootTupleRoot(tupleRoot: Hex.Hash, newNonce: nat, currentValset: Valset, slots: seq<Vrs>)
    returns (r: Result<Tx, EvmError>)
    ensures r.Ok? <==> forall i | 0 <= i < |currentValset.members| :: IsHexAddress(currentValset.members[i].evmAddress)
    ensures r.Ok? ==> r.value == Tx(newNonce, NewRoot(tupleRoot), currentValset.nonce,
                                    currentValset.members, EthValidators(currentValset.members), slots)
  {
    var ethVals := EthValset(currentValset.members);
    if ethVals.Err? {
      return Err(ethVals.error);
    }
    return Ok(Tx(newNonce, NewRoot(tupleRoot), currentValset.nonce, currentValset.members, ethVals.value, slots));
  }
}
