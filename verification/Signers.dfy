/**
 cmd/blobstream/query/cmd.go, SignersRange: how many attestations of a range each validator
 signed. A validator is its address together with its names at the time of each query.
 */
module Signers {
  import opened Quorum

  /** The signed lines of a validator in one output. */
  function LinesSigned(lines: seq<SignatureLine>, who: ValidatorInfo): nat {
    if lines == [] then 0
    else
      var last := lines[|lines| - 1];
      LinesSigned(lines[..|lines| - 1], who) + if last.signed && last.validator == who then 1 else 0
  }

  function AllLinesSigned(outputs: seq<QueryOutput>, who: ValidatorInfo): nat {
    if outputs == [] then 0
    else AllLinesSigned(outputs[..|outputs| - 1], who) + LinesSigned(outputs[|outputs| - 1].signatures, who)
  }

  predicate Listed(lines: seq<SignatureLine>, who: ValidatorInfo) {
    exists line | line in lines :: line.validator == who
  }

  predicate ListedInSome(outputs: seq<QueryOutput>, who: ValidatorInfo) {
    exists output | output in outputs :: Listed(output.signatures, who)
  }

  function At(signers: map<ValidatorInfo, nat>, who: ValidatorInfo): nat {
    if who in signers then signers[who] else 0
  }

  /** One output: every listed validator gets an entry, and every signed line counts. */
  method AddOutput(signers: map<ValidatorInfo, nat>, lines: seq<SignatureLine>) returns (signersMap: map<ValidatorInfo, nat>)
    ensures forall who :: who in signersMap <==> who in signers || Listed(lines, who)
    ensures forall who :: At(signersMap, who) == At(signers, who) + LinesSigned(lines, who)
  {
    signersMap := signers;
    for i := 0 to |lines|
      invariant forall who :: who in signersMap <==> who in signers || Listed(lines[..i], who)
      invariant forall who :: At(signersMap, who) == At(signers, who) + LinesSigned(lines[..i], who)
    {
      var line, before := lines[i], signersMap;
      signersMap := before[line.validator := At(before, line.validator) + if line.signed then 1 else 0];
      forall who
        ensures who in signersMap <==> who in signers || Listed(lines[..i + 1], who)
        ensures At(signersMap, who) == At(signers, who) + LinesSigned(lines[..i + 1], who)
      {
        OneMoreLine(lines, i, who);
      }
    }
    assert lines[..|lines|] == lines;
  }

  lemma OneMoreLine(lines: seq<SignatureLine>, i: nat, who: ValidatorInfo)
    requires i < |lines|
    ensures Listed(lines[..i + 1], who) <==> Listed(lines[..i], who) || lines[i].validator == who
    ensures LinesSigned(lines[..i + 1], who)
         == LinesSigned(lines[..i], who) + if lines[i].signed && lines[i].validator == who then 1 else 0
  {
    assert lines[..i + 1][..i] == lines[..i];
    assert lines[..i + 1] == lines[..i] + [lines[i]];
    assert lines[i] in lines[..i + 1];
  }

  method CountSigners(outputs: seq<QueryOutput>) returns (signersMap: map<ValidatorInfo, nat>)
    ensures forall who :: who in signersMap <==> ListedInSome(outputs, who)
    ensures forall who :: At(signersMap, who) == AllLinesSigned(outputs, who)
  {
    signersMap := map[];
    for i := 0 to |outputs|
      invariant forall who :: who in signersMap <==> ListedInSome(outputs[..i], who)
      invariant forall who :: At(signersMap, who) == AllLinesSigned(outputs[..i], who)
    {
      signersMap := AddOutput(signersMap, outputs[i].signatures);
      forall who
        ensures ListedInSome(outputs[..i + 1], who) <==> ListedInSome(outputs[..i], who) || Listed(outputs[i].signatures, who)
        ensures AllLinesSigned(outputs[..i + 1], who)
             == AllLinesSigned(outputs[..i], who) + LinesSigned(outputs[i].signatures, who)
      {
        assert outputs[..i + 1][..i] == outputs[..i];
        assert outputs[..i + 1] == outputs[..i] + [outputs[i]];
        assert outputs[i] in outputs[..i + 1];
      }
    }
    assert outputs[..|outputs|] == outputs;
  }

  predicate Signed(output: QueryOutput, who: ValidatorInfo) {
    exists line | line in output.signatures :: line.signed && line.validator == who
  }

  function NoncesSigned(outputs: seq<QueryOutput>, who: ValidatorInfo): nat {
    if outputs == [] then 0
    else NoncesSigned(outputs[..|outputs| - 1], who) + if Signed(outputs[|outputs| - 1], who) then 1 else 0
  }

  predicate OneLineEach(lines: seq<SignatureLine>) {
    forall i, j | 0 <= i < j < |lines| :: lines[i].validator.evmAddress != lines[j].validator.evmAddress
  }

  lemma {:induction false} SignedLineCounts(lines: seq<SignatureLine>, who: ValidatorInfo)
    requires OneLineEach(lines)
    ensures LinesSigned(lines, who) == if exists line | line in lines :: line.signed && line.validator == who then 1 else 0
  {
    if lines != [] {
      var n := |lines| - 1;
      SignedLineCounts(lines[..n], who);
      assert lines == lines[..n] + [lines[n]];
      assert lines[n] in lines;
    }
  }

  /** With the addresses of each valset distinct, the count is of the attestations signed under these names. */
  lemma {:induction false} CountIsOfNonces(outputs: seq<QueryOutput>, who: ValidatorInfo)
    requires forall output | output in outputs :: OneLineEach(output.signatures)
    ensures AllLinesSigned(outputs, who) == NoncesSigned(outputs, who)
  {
    if outputs != [] {
      var n := |outputs| - 1;
      CountIsOfNonces(outputs[..n], who);
      SignedLineCounts(outputs[n].signatures, who);
    }
  }

  predicate SignedAt(lines: seq<SignatureLine>, addr: string) {
    exists line | line in lines :: line.signed && line.validator.evmAddress == addr
  }

  /** How many of the attestations the address signed, under whatever names. */
  function NoncesOfAddress(outputs: seq<QueryOutput>, addr: string): nat {
    if outputs == [] then 0
    else NoncesOfAddress(outputs[..|outputs| - 1], addr) + if SignedAt(outputs[|outputs| - 1].signatures, addr) then 1 else 0
  }

  /** The address signs under no other names. */
  predicate OneName(lines: seq<SignatureLine>, who: ValidatorInfo) {
    forall line | line in lines && line.signed && line.validator.evmAddress == who.evmAddress :: line.validator == who
  }

  lemma OneOutput(lines: seq<SignatureLine>, who: ValidatorInfo)
    requires OneLineEach(lines)
    ensures var signed := if SignedAt(lines, who.evmAddress) then 1 else 0;
            LinesSigned(lines, who) <= signed && (LinesSigned(lines, who) == signed <==> OneName(lines, who))
  {
    SignedLineCounts(lines, who);
    forall a, b | a in lines && b in lines && a.validator.evmAddress == b.validator.evmAddress ensures a == b {
      var i :| 0 <= i < |lines| && lines[i] == a;
      var j :| 0 <= j < |lines| && lines[j] == b;
      assert i == j;
    }
  }

  /**
   A validator that changed its names in the range has several entries: one of them counts all
   that its address signed exactly when the address signed under no other names.
   */
  lemma {:induction false} EntryIsWholeIff(outputs: seq<QueryOutput>, who: ValidatorInfo)
    requires forall output | output in outputs :: OneLineEach(output.signatures)
    ensures AllLinesSigned(outputs, who) <= NoncesOfAddress(outputs, who.evmAddress)
    ensures AllLinesSigned(outputs, who) == NoncesOfAddress(outputs, who.evmAddress)
       <==> forall output | output in outputs :: OneName(output.signatures, who)
  {
    if outputs != [] {
      var n := |outputs| - 1;
      hide OneName, OneLineEach, SignedAt, LinesSigned;
      assert outputs == outputs[..n] + [outputs[n]];
      EntryIsWholeIff(outputs[..n], who);
      OneOutput(outputs[n].signatures, who);
    }
  }
}
