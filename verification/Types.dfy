/** Valsets, attestations and confirms: the values that travel between the components. */
module Types {
  datatype Member = Member(power: nat, evmAddress: string)

  datatype Valset = Valset(nonce: nat, members: seq<Member>, height: nat, time: int)

  /** What is published of a valset: its time differs between machines and stays behind. */
  datatype LatestValset = LatestValset(nonce: nat, members: seq<Member>, height: nat)

  datatype Attestation =
    | ValsetAtt(valset: Valset)
    | CommitmentAtt(nonceOfRoot: nat, beginBlock: nat, endBlock: nat)
    | UnknownAtt(nonceOfUnknown: nat)
  {
    function Nonce(): nat {
      match this
      case ValsetAtt(vs) => vs.nonce
      case CommitmentAtt(n, _, _) => n
      case UnknownAtt(n) => n
    }
  }

  /** ValsetConfirm and DataCommitmentConfirm have the same two fields. */
  datatype Confirm = Confirm(ethAddress: string, signature: string)

  function ToValset(lv: LatestValset): Valset {
    Valset(lv.nonce, lv.members, lv.height, 1)
  }

  function ToLatestValset(vs: Valset): LatestValset {
    LatestValset(vs.nonce, vs.members, vs.height)
  }

  predicate IsEmptyLatestValset(lv: LatestValset) {
    lv.nonce == 0 && lv.height == 0 && lv.members == []
  }
}
