/**
 The whole system as a state machine: the chain issues attestations, orchestrators sign
 them, confirms reach the DHT, and anybody submits transactions to the contract. The contract
 and the chain are environment: only what the relayer relies on is fixed here.
 */
module Protocol {
  import opened Wrappers
  import opened Hex
  import opened Keys
  import opened Types
  import opened Chain
  import opened Ethereum
  import opened Validators
  import opened Signature
  import opened Quorum

  /** The fixed surroundings of a run. `honest` holds the addresses whose orchestrator is this software. */
  datatype Params = Params(
    valsetDigest: (nat, seq<Member>) -> SignBytes,
    rootDigest: (nat, Hash) -> SignBytes,
    commitment: (nat, nat) -> Hash,
    threshold: seq<Member> -> nat,
    scheme: Scheme,
    codec: Codec<Confirm>,
    honest: set<Address>
  ) {
    /** Digests are collision free and separated by domain; the threshold is two thirds. */
    ghost predicate Sound() {
      && (forall n1, m1, n2, m2 :: valsetDigest(n1, m1) == valsetDigest(n2, m2) ==> n1 == n2 && m1 == m2)
      && (forall n1, r1, n2, r2 :: rootDigest(n1, r1) == rootDigest(n2, r2) ==> n1 == n2 && r1 == r2)
      && (forall n1, m1, n2, r2 :: valsetDigest(n1, m1) != rootDigest(n2, r2))
      && IsTwoThirds(threshold)
      && scheme.AgreesOnV()
    }

    /** What is signed for an attestation: the valset's sign bytes, or the tuple root's. */
    function Digest(att: Attestation): Option<SignBytes> {
      match att
      case ValsetAtt(vs) => Some(valsetDigest(vs.nonce, vs.members))
      case CommitmentAtt(n, b, e) => Some(rootDigest(n, commitment(b, e)))
      case UnknownAtt(_) => None
    }
  }

  /** A contract call: the attestation, the valset it is checked against, and the signatures in its order. */
  datatype Tx = Tx(
    newNonce: nat,
    payload: Payload,
    currentNonce: nat,
    current: seq<Member>,
    validators: seq<EthValidator>,
    slots: seq<Vrs>
  )

  datatype Payload = NewValset(members: seq<Member>) | NewRoot(root: Hash)

  /** What is collected for an attestation: the confirms of its digest. */
  function SubjectOf(p: Params, att: Attestation): Subject
    requires p.Digest(att).Some?
  {
    Subject(if att.ValsetAtt? then ValsetConfirms else CommitmentConfirms, att.Nonce(), HashHex(p.Digest(att).value))
  }

  function TxDigest(p: Params, tx: Tx): SignBytes {
    match tx.payload
    case NewValset(members) => p.valsetDigest(tx.newNonce, members)
    case NewRoot(root) => p.rootDigest(tx.newNonce, root)
  }

  datatype Contract = Contract(nonce: nat, checkpoint: SignBytes)

  /** `signed` holds who has signed which digest; nobody else can produce such a signature. */
  datatype State = State(
    chain: seq<Attestation>,
    signed: set<(Address, SignBytes)>,
    dht: map<string, seq<byte>>,
    contract: Contract
  )

  /** Whose signature a slot holds, over a digest: the EVM's recovery, which wants v with 27 added. */
  function Recovered(scheme: Scheme, digest: SignBytes, slot: Vrs): Option<Address> {
    if slot.Vrs? && slot.v in {27, 28}
    then scheme.recover(ProtectedHash(scheme, digest), slot.r + slot.s + [slot.v - 27])
    else None
  }

  /** The validators that the checkpoint of these members stands for. */
  function Registered(members: seq<Member>): (vals: seq<EthValidator>)
    ensures |vals| == |members|
  {
    seq(|members|, i requires 0 <= i < |members| => EthValidator(AddressOf(members[i].evmAddress), members[i].power))
  }

  /** The power of the validators that are marked. */
  function EthPowerOf(vals: seq<EthValidator>, marked: seq<bool>): int
    requires |vals| == |marked|
  {
    if vals == [] then 0
    else
      var n := |vals| - 1;
      EthPowerOf(vals[..n], marked[..n]) + if marked[n] then vals[n].power else 0
  }

  /** The first k signatures are those of the validators in their places, as far as given, and enough. */
  predicate EnoughSigned(p: Params, tx: Tx, k: nat) {
    && k <= |tx.slots| == |tx.validators|
    && (forall i | 0 <= i < k && tx.slots[i].Vrs? ::
          Recovered(p.scheme, TxDigest(p, tx), tx.slots[i]) == Some(tx.validators[i].address))
    && EthPowerOf(tx.validators[..k], Filled(tx.slots[..k])) >= p.threshold(tx.current)
  }

  /**
   The contract's check: the next nonce, the validators of the trusted valset, and its walk
   along the signatures, which ends where they are enough and fails at one that is not its
   validator's.
   */
  predicate Accepts(p: Params, s: State, tx: Tx) {
    && tx.newNonce == s.contract.nonce + 1
    && p.valsetDigest(tx.currentNonce, tx.current) == s.contract.checkpoint
    && tx.validators == Registered(tx.current)
    && exists k | 0 <= k <= |tx.slots| :: EnoughSigned(p, tx, k)
  }

  lemma {:induction false} EthPowerIsPower(members: seq<Member>, k: nat, marked: seq<bool>)
    requires k == |marked| <= |members|
    ensures EthPowerOf(Registered(members)[..k], marked) == PowerOf(members[..k], marked)
  {
    if k > 0 {
      EthPowerIsPower(members, k - 1, marked[..k - 1]);
      assert Registered(members)[..k][..k - 1] == Registered(members)[..k - 1];
      assert members[..k][..k - 1] == members[..k - 1];
    }
  }

  /** What the EVM client submits are these validators exactly when every power is below 2^63. */
  lemma SubmittedAreRegisteredIff(members: seq<Member>)
    ensures EthValidators(members) == Registered(members)
       <==> forall i | 0 <= i < |members| :: members[i].power < UINT64_LIMIT / 2
  {
    PowersSurviveIff(members);
    forall i | 0 <= i < |members|
      ensures EthValidators(members)[i] == Registered(members)[i] <==> members[i].power < UINT64_LIMIT / 2
    {
      assert Registered(members)[i] == EthValidator(AddressOf(members[i].evmAddress), members[i].power);
    }
    if EthValidators(members) == Registered(members) {
      assert forall i | 0 <= i < |members| :: EthValidators(members)[i] == Registered(members)[i];
    }
  }

  /** Unforgeability: if a signature over the digest recovers to an account, the account has signed the digest. */
  predicate Unforged(signed: set<(Address, SignBytes)>, digest: SignBytes, recovered: Option<Address>) {
    recovered.Some? ==> (recovered.value, digest) in signed
  }

  predicate UnforgedTx(p: Params, signed: set<(Address, SignBytes)>, tx: Tx) {
    forall i | 0 <= i < |tx.slots| :: Unforged(signed, TxDigest(p, tx), Recovered(p.scheme, TxDigest(p, tx), tx.slots[i]))
  }

  // --- steps ---

  datatype Step =
    | Issue(att: Attestation)
    | Sign(signer: Address, digest: SignBytes)
    | Put(key: string, value: seq<byte>)
    | Execute(tx: Tx)

  /** The members whose orchestrator may sign anything. */
  function Untrusted(p: Params, members: seq<Member>): (marks: seq<bool>)
    ensures |marks| == |members|
  {
    seq(|members|, i requires 0 <= i < |members| => AddressOf(members[i].evmAddress) !in p.honest)
  }

  predicate ProperValset(p: Params, members: seq<Member>) {
    && DistinctIgnoringCase(members)
    && Total(members) < UINT64_LIMIT
    && (forall m | m in members :: IsHexAddress(m.evmAddress) && m.power < UINT64_LIMIT / 2)
    && PowerOf(members, Untrusted(p, members)) < p.threshold(members)
  }

  predicate AttestedAt(p: Params, chain: seq<Attestation>, digest: SignBytes, n: nat) {
    2 <= n <= |chain| && p.Digest(chain[n - 1]) == Some(digest)
  }

  predicate IsAttested(p: Params, chain: seq<Attestation>, digest: SignBytes) {
    exists n | 2 <= n <= |chain| :: AttestedAt(p, chain, digest, n)
  }

  /** A confirm is in the DHT only if its validator accepts it, and with no signature but one that was made. */
  predicate Genuine(p: Params, signed: set<(Address, SignBytes)>, key: string, value: seq<byte>) {
    && (exists kind | kind in {ValsetConfirms, CommitmentConfirms} :: Validate(kind, p.scheme, p.codec, key, value).None?)
    && UnforgedConfirm(p, signed, key, value)
  }

  predicate UnforgedConfirm(p: Params, signed: set<(Address, SignBytes)>, key: string, value: seq<byte>) {
    match (ParseKey(key), p.codec.decode(value))
    case (Ok(f), Some(c)) => UnforgedText(p.scheme, signed, f.digest, c.signature)
    case _ => true
  }

  predicate UnforgedText(scheme: Scheme, signed: set<(Address, SignBytes)>, digest: string, signature: string) {
    match (Decode(Strip0x(digest)), Decode(Strip0x(signature)))
    case (Some(d), Some(sig)) =>
      d != [] ==> Unforged(signed, d, match EthAddressFromSignature(scheme, d, sig) case Ok(a) => Some(a) case Err(_) => None)
    case _ => true
  }

  predicate Enabled(p: Params, s: State, step: Step) {
    match step
    case Issue(att) => att.Nonce() == |s.chain| + 1 < UINT64_LIMIT && (att.ValsetAtt? ==> ProperValset(p, att.valset.members))
    case Sign(signer, digest) => signer in p.honest ==> IsAttested(p, s.chain, digest)
    case Put(key, value) => Genuine(p, s.signed, key, value)
    case Execute(tx) => Accepts(p, s, tx) && UnforgedTx(p, s.signed, tx)
  }

  function Apply(p: Params, c: Contract, tx: Tx): Contract {
    Contract(tx.newNonce, if tx.payload.NewValset? then TxDigest(p, tx) else c.checkpoint)
  }

  function Do(p: Params, s: State, step: Step): State {
    match step
    case Issue(att) => s.(chain := s.chain + [att])
    case Sign(signer, digest) => s.(signed := s.signed + {(signer, digest)})
    case Put(key, value) => s.(dht := s.dht[key := value])
    case Execute(tx) => s.(contract := Apply(p, s.contract, tx))
  }

  predicate Legal(p: Params, s: State, steps: seq<Step>)
    decreases |steps|
  {
    steps == [] || (Enabled(p, s, steps[0]) && Legal(p, Do(p, s, steps[0]), steps[1..]))
  }

  function Run(p: Params, s: State, steps: seq<Step>): State
    decreases |steps|
  {
    if steps == [] then s else Run(p, Do(p, s, steps[0]), steps[1..])
  }

  // --- the invariant ---

  /** The contract trusts the last valset issued up to its nonce. */
  ghost predicate TrustsLastValset(p: Params, chain: seq<Attestation>, c: Contract) {
    && 1 <= c.nonce <= |chain|
    && var vs := LastValsetAtMost(chain, c.nonce);
       vs.Some? && c.checkpoint == p.valsetDigest(vs.value.nonce, vs.value.members)
  }

  ghost predicate ProperChain(p: Params, chain: seq<Attestation>) {
    && NumberedFromOne(chain) && |chain| < UINT64_LIMIT
    && forall i | 0 <= i < |chain| && chain[i].ValsetAtt? :: ProperValset(p, chain[i].valset.members)
  }

  ghost predicate HonestlySigned(p: Params, chain: seq<Attestation>, signed: set<(Address, SignBytes)>) {
    forall entry | entry in signed :: entry.0 in p.honest ==> IsAttested(p, chain, entry.1)
  }

  ghost predicate GenuineDht(p: Params, s: State) {
    forall key | key in s.dht :: Genuine(p, s.signed, key, s.dht[key])
  }

  ghost predicate Inv(p: Params, s: State) {
    && ProperChain(p, s.chain)
    && HonestlySigned(p, s.chain, s.signed)
    && GenuineDht(p, s)
    && TrustsLastValset(p, s.chain, s.contract)
  }

  /** A contract just deployed: nothing signed or published yet. */
  ghost predicate Deployed(p: Params, s: State, vs: Valset, nonce: nat) {
    && ProperChain(p, s.chain) && s.signed == {} && s.dht == map[]
    && 1 <= nonce <= |s.chain|
    && LastValsetAtMost(s.chain, nonce) == Some(vs)
    && s.contract == Contract(nonce, p.valsetDigest(vs.nonce, vs.members))
  }

  /** If only untrusted members filled their slots, the threshold would not be met. */
  lemma {:induction false} SomeHonestSigner(p: Params, members: seq<Member>, filled: seq<bool>, untrusted: seq<bool>)
    returns (i: nat)
    requires |members| == |filled| == |untrusted|
    requires PowerOf(members, filled) > PowerOf(members, untrusted)
    ensures i < |members| && filled[i] && !untrusted[i]
  {
    var n := |members| - 1;
    if filled[n] && !untrusted[n] {
      i := n;
    } else {
      i := SomeHonestSigner(p, members[..n], filled[..n], untrusted[..n]);
    }
  }

  lemma CheckpointNamesValset(p: Params, s: State, nonce: nat, members: seq<Member>)
    requires p.Sound() && TrustsLastValset(p, s.chain, s.contract)
    requires p.valsetDigest(nonce, members) == s.contract.checkpoint
    ensures var vs := LastValsetAtMost(s.chain, s.contract.nonce).value; nonce == vs.nonce && members == vs.members
  {
  }

  lemma TrustedValsetIsProper(p: Params, s: State)
    requires ProperChain(p, s.chain) && TrustsLastValset(p, s.chain, s.contract)
    ensures ProperValset(p, LastValsetAtMost(s.chain, s.contract.nonce).value.members)
  {
    var m := LastValsetPosition(s.chain, s.contract.nonce);
  }

  lemma AcceptedWasAttested(p: Params, s: State, tx: Tx) returns (n: nat)
    requires p.Sound() && Inv(p, s) && Enabled(p, s, Execute(tx))
    ensures AttestedAt(p, s.chain, TxDigest(p, tx), n)
  {
    CheckpointNamesValset(p, s, tx.currentNonce, tx.current);
    TrustedValsetIsProper(p, s);
    var k :| 0 <= k <= |tx.slots| && EnoughSigned(p, tx, k);
    PowerOfPrefix(tx.current, Untrusted(p, tx.current), k);
    EthPowerIsPower(tx.current, k, Filled(tx.slots[..k]));
    var i := SomeHonestSigner(p, tx.current[..k], Filled(tx.slots[..k]), Untrusted(p, tx.current)[..k]);
    assert tx.slots[i].Vrs? && tx.current[..k][i] == tx.current[i];
    assert Unforged(s.signed, TxDigest(p, tx), Recovered(p.scheme, TxDigest(p, tx), tx.slots[i]));
    n := HonestSignatureIsAttested(p, s, AddressOf(tx.current[i].evmAddress), TxDigest(p, tx));
  }

  lemma HonestSignatureIsAttested(p: Params, s: State, signer: Address, digest: SignBytes) returns (n: nat)
    requires HonestlySigned(p, s.chain, s.signed) && (signer, digest) in s.signed && signer in p.honest
    ensures AttestedAt(p, s.chain, digest, n)
  {
    assert IsAttested(p, s.chain, (signer, digest).1);
    n :| 2 <= n <= |s.chain| && AttestedAt(p, s.chain, digest, n);
  }

  lemma DigestNamesNonce(p: Params, chain: seq<Attestation>, tx: Tx, n: nat)
    requires p.Sound() && NumberedFromOne(chain) && AttestedAt(p, chain, TxDigest(p, tx), n)
    ensures n == tx.newNonce
    ensures chain[n - 1].ValsetAtt? <==> tx.payload.NewValset?
  {
    assert chain[n - 1].Nonce() == n;
  }

  /** The contract accepts nothing but the chain's own next attestation. */
  lemma AcceptedIsNextAttestation(p: Params, s: State, tx: Tx)
    requires p.Sound() && Inv(p, s) && Enabled(p, s, Execute(tx))
    ensures AttestedAt(p, s.chain, TxDigest(p, tx), tx.newNonce)
    ensures s.chain[tx.newNonce - 1].ValsetAtt? <==> tx.payload.NewValset?
  {
    var n := AcceptedWasAttested(p, s, tx);
    DigestNamesNonce(p, s.chain, tx, n);
  }

  lemma ExecuteKeepsTrust(p: Params, s: State, tx: Tx)
    requires p.Sound() && Inv(p, s) && Enabled(p, s, Execute(tx))
    ensures TrustsLastValset(p, s.chain, Apply(p, s.contract, tx))
  {
    AcceptedIsNextAttestation(p, s, tx);
  }

  lemma AttestedStays(p: Params, chain: seq<Attestation>, longer: seq<Attestation>, digest: SignBytes)
    requires chain <= longer && IsAttested(p, chain, digest)
    ensures IsAttested(p, longer, digest)
  {
    var n :| 2 <= n <= |chain| && AttestedAt(p, chain, digest, n);
    assert AttestedAt(p, longer, digest, n);
  }

  /** One step of anybody keeps the invariant, and nothing that happened is undone. */
  lemma StepKeepsInv(p: Params, s: State, step: Step)
    requires p.Sound() && Inv(p, s) && Enabled(p, s, step)
    ensures Inv(p, Do(p, s, step)) && Grows(s, Do(p, s, step))
  {
    var s' := Do(p, s, step);
    match step {
      case Issue(att) =>
        LastValsetStable(s.chain, s'.chain, s.contract.nonce);
        forall entry | entry in s'.signed && entry.0 in p.honest ensures IsAttested(p, s'.chain, entry.1) {
          AttestedStays(p, s.chain, s'.chain, entry.1);
        }
      case Sign(signer, digest) =>
      case Put(key, value) =>
      case Execute(tx) => ExecuteKeepsTrust(p, s, tx);
    }
  }

  /** Chain, signatures, published keys and contract nonce only grow, and the checkpoint moves only with the nonce. */
  ghost predicate Grows(s: State, s': State) {
    && s.chain <= s'.chain
    && s.signed <= s'.signed
    && s.dht.Keys <= s'.dht.Keys
    && s.contract.nonce <= s'.contract.nonce
    && (s.contract.nonce == s'.contract.nonce ==> s.contract == s'.contract)
  }

  /**
   Safety over whole runs: whoever submits what, in every state after a deployment the
   contract's checkpoint is that of the last valset issued up to its nonce, as long as in
   every valset the members that may misbehave stay below the threshold.
   */
  lemma {:induction false} RunsKeepInv(p: Params, s: State, steps: seq<Step>)
    requires p.Sound() && Inv(p, s) && Legal(p, s, steps)
    ensures Inv(p, Run(p, s, steps)) && Grows(s, Run(p, s, steps))
    decreases |steps|
  {
    if steps != [] {
      StepKeepsInv(p, s, steps[0]);
      RunsKeepInv(p, Do(p, s, steps[0]), steps[1..]);
    }
  }

  lemma ContractFollowsChain(p: Params, s: State, vs: Valset, nonce: nat, steps: seq<Step>)
    requires p.Sound() && Deployed(p, s, vs, nonce) && Legal(p, s, steps)
    ensures var end := Run(p, s, steps);
            && TrustsLastValset(p, end.chain, end.contract)
            && nonce <= end.contract.nonce <= |end.chain|
  {
    RunsKeepInv(p, s, steps);
  }

  /**
   The relayer's check of a valset from the DHT: if its sign bytes are the contract's
   checkpoint and the contract is still at n-1, it has the nonce and the members of the last
   valset before n. Its height is not authenticated.
   */
  lemma AuthenticatedValset(p: Params, s: State, lv: LatestValset, n: nat)
    requires p.Sound() && Inv(p, s) && s.contract.nonce + 1 == n
    requires p.valsetDigest(lv.nonce, lv.members) == s.contract.checkpoint
    ensures LastValsetBefore(s.chain, n).Some?
    ensures var vs := LastValsetBefore(s.chain, n).value;
            ToValset(lv).nonce == vs.nonce && ToValset(lv).members == vs.members
  {
  }

  /** The converse: the chain's own valset, published and read back, passes that check. */
  lemma PublishedValsetPasses(p: Params, s: State, n: nat)
    requires p.Sound() && Inv(p, s) && s.contract.nonce + 1 == n
    ensures LastValsetBefore(s.chain, n).Some?
    ensures var vs := ToValset(ToLatestValset(LastValsetBefore(s.chain, n).value));
            p.valsetDigest(vs.nonce, vs.members) == s.contract.checkpoint
  {
  }

  // --- transactions that stay good ---

  /** The s of every signature is in the low range of EIP-2. */
  ghost predicate AllLowS(slots: seq<Vrs>) {
    forall slot | slot in slots && slot.Vrs? :: 0 < BigEndian(slot.s) <= SECP256K1_N / 2
  }

  /** Every signature given is its validator's and in the low range, whether or not the contract comes to it. */
  ghost predicate FullySigned(p: Params, tx: Tx) {
    EnoughSigned(p, tx, |tx.slots|) && AllLowS(tx.slots)
  }

  /** A transaction for a nonce the contract has reached or is about to reach, acceptable in the latter case. */
  ghost predicate GoodTx(p: Params, s: State, tx: Tx) {
    && tx.newNonce <= s.contract.nonce + 1
    && (tx.newNonce == s.contract.nonce + 1 ==> Enabled(p, s, Execute(tx)) && FullySigned(p, tx))
  }

  /** A lookup in the DHT finds only what the member looked up has signed, under its own address. */
  ghost predicate Backed(p: Params, signed: set<(Address, SignBytes)>, lookup: Lookup, subject: Subject, digest: SignBytes) {
    forall addr | IsHexAddress(addr) :: lookup(subject.Key(addr)).Found? ==>
      var c := lookup(subject.Key(addr)).confirm;
      && Lower(c.ethAddress) == Lower(addr)
      && SignedBy(p.scheme, AddressOf(addr), digest, c.signature)
      && (AddressOf(addr), digest) in signed
  }

  lemma BackedStays(p: Params, signed: set<(Address, SignBytes)>, more: set<(Address, SignBytes)>, lookup: Lookup,
                    subject: Subject, digest: SignBytes)
    requires Backed(p, signed, lookup, subject, digest) && signed <= more
    ensures Backed(p, more, lookup, subject, digest)
  {
    hide SignedBy;
  }

  lemma HexAddressIsClean(addr: string)
    requires IsHexAddress(addr)
    ensures CleanField(addr) && addr != ""
  {
    var t := if Has0x(addr) then addr[2..] else addr;
    var skipped := |addr| - |t|;
    forall i | 0 <= i < |addr| ensures addr[i] != '/' && addr[i] != ':' {
      if i >= skipped {
        assert addr[i] == t[i - skipped] && t[i - skipped] in t;
        assert DigitValue(addr[i]).Some?;
      }
    }
  }

  /** What the DHT holds under a member's key carries a signature that recovers to it, so the member made it. */
  lemma DhtEntryIsBacked(p: Params, s: State, kind: ConfirmKind, nonce: nat, addr: string, digest: SignBytes)
    requires GenuineDht(p, s) && nonce < UINT64_LIMIT && IsHexAddress(addr)
    requires ConfirmKey(kind, nonce, addr, HashHex(digest)) in s.dht
    ensures var decoded := p.codec.decode(s.dht[ConfirmKey(kind, nonce, addr, HashHex(digest))]);
            && decoded.Some? && Lower(decoded.value.ethAddress) == Lower(addr)
            && SignedBy(p.scheme, AddressOf(addr), digest, decoded.value.signature)
            && (AddressOf(addr), digest) in s.signed
  {
    hide Validate;
    var key := ConfirmKey(kind, nonce, addr, HashHex(digest));
    HexAddressIsClean(addr);
    assert Genuine(p, s.signed, key, s.dht[key]);
    var k :| k in {ValsetConfirms, CommitmentConfirms} && Validate(k, p.scheme, p.codec, key, s.dht[key]).None?;
    KindIsThatOfKey(p, k, kind, nonce, addr, digest, s.dht[key]);
    ValidatedWasSigned(kind, p.scheme, p.codec, nonce, addr, digest, s.dht[key]);
    MakerHasSigned(p, s.signed, kind, nonce, addr, digest, s.dht[key]);
  }

  lemma KindIsThatOfKey(p: Params, k: ConfirmKind, kind: ConfirmKind, nonce: nat, addr: string, digest: SignBytes, value: seq<byte>)
    requires nonce < UINT64_LIMIT && CleanField(addr) && addr != ""
    requires Validate(k, p.scheme, p.codec, ConfirmKey(kind, nonce, addr, HashHex(digest)), value).None?
    ensures k == kind
  {
    HashHexIsClean(digest);
    ParseInvertsBuild(kind, nonce, addr, HashHex(digest));
    assert Namespace(k) == Namespace(kind);
  }

  /** A confirm whose signature recovers to somebody, and was not forged, was signed by them. */
  lemma MakerHasSigned(p: Params, signed: set<(Address, SignBytes)>, kind: ConfirmKind, nonce: nat, addr: string,
                       digest: SignBytes, value: seq<byte>)
    requires nonce < UINT64_LIMIT && CleanField(addr) && addr != ""
    requires UnforgedConfirm(p, signed, ConfirmKey(kind, nonce, addr, HashHex(digest)), value)
    requires p.codec.decode(value).Some?
    requires SignedBy(p.scheme, AddressOf(addr), digest, p.codec.decode(value).value.signature)
    ensures (AddressOf(addr), digest) in signed
  {
    HashHexIsClean(digest);
    DecodeEncode(digest);
    ParseInvertsBuild(kind, nonce, addr, HashHex(digest));
  }

  /** A signature that recovers to an account still does once it is split for the contract. */
  lemma SlotRecovers(scheme: Scheme, account: Address, digest: SignBytes, signature: string, slot: Vrs)
    requires scheme.AgreesOnV() && SignedBy(scheme, account, digest, signature) && SigToVRS(signature) == Ok(slot)
    ensures Recovered(scheme, digest, slot) == Some(account)
    ensures slot.Vrs? && 0 < BigEndian(slot.s) <= SECP256K1_N / 2
  {
    hide SigToVRS, Decode, Strip0x, FromHex, Lower, ProtectedHash, BigEndian;
    var sig :| Decode(Strip0x(signature)) == Some(sig) && |sig| >= 65
               && scheme.recover(ProtectedHash(scheme, digest), sig) == Some(account);
    ReadAlike(signature, sig);
    SigToVRSIff(signature);
    assert sig == sig[..64] + [sig[64]];
    assert slot.r + slot.s == sig[..64];
  }

  /** What the validators read from a signature's text is what SigToVRS reads. */
  lemma ReadAlike(signature: string, sig: seq<byte>)
    requires Decode(Strip0x(signature)) == Some(sig)
    ensures FromHex(Lower(signature)) == sig
  {
    DecodeIff(Strip0x(signature), sig);
    LowerIdempotent(signature);
    if Strip0x(signature) == signature {
      FromHexReads(Lower(signature), sig);
    } else {
      assert Lower(signature) == "0x" + Lower(signature[2..]);
      FromHexReads(Lower(signature), sig);
    }
  }

  /** Each filled slot is its member's, and together they are enough. */
  lemma CollectedQuorumIsSigned(p: Params, signed: set<(Address, SignBytes)>, tx: Tx, confirms: seq<Confirm>,
                                lookup: Lookup, subject: Subject)
    requires p.Sound() && ProperValset(p, tx.current) && tx.validators == EthValidators(tx.current)
    requires Backed(p, signed, lookup, subject, TxDigest(p, tx))
    requires IsQuorum(confirms, lookup, subject, tx.current, p.threshold(tx.current))
    requires Aligned(tx.slots, SigsMap(confirms), tx.current)
    ensures EthValidators(tx.current) == Registered(tx.current) && |tx.slots| == |tx.current|
    ensures EthPowerOf(tx.validators, Filled(tx.slots)) >= p.threshold(tx.current)
    ensures forall i | 0 <= i < |tx.slots| && tx.slots[i].Vrs? ::
              && Recovered(p.scheme, TxDigest(p, tx), tx.slots[i]) == Some(tx.validators[i].address)
              && (tx.validators[i].address, TxDigest(p, tx)) in signed
              && 0 < BigEndian(tx.slots[i].s) <= SECP256K1_N / 2
  {
    hide Recovered, Tally, PowerOf, EthPowerOf, SigsMap, Backed, ValsOf, Gather, SoundLookup, BigEndian, ExactMarks,
         TxDigest, DistinctIgnoringCase;
    var n := |tx.current|;
    BackedIsSound(p, signed, lookup, subject, TxDigest(p, tx), tx.current);
    CountsAgree(lookup, subject, tx.current, tx.slots);
    assert tx.current[..n] == tx.current && Registered(tx.current)[..n] == Registered(tx.current);
    SubmittedAreRegisteredIff(tx.current);
    EthPowerIsPower(tx.current, n, Filled(tx.slots));
    forall i | 0 <= i < |tx.slots| && tx.slots[i].Vrs?
      ensures Recovered(p.scheme, TxDigest(p, tx), tx.slots[i]) == Some(tx.validators[i].address)
      ensures (tx.validators[i].address, TxDigest(p, tx)) in signed
      ensures 0 < BigEndian(tx.slots[i].s) <= SECP256K1_N / 2
    {
      FilledSlotRecovers(p, signed, lookup, subject, TxDigest(p, tx), tx.current, tx.slots, i);
    }
  }

  /** A quorum found in the DHT, laid out for the trusted valset, is what the contract asks for. */
  lemma CollectedQuorumIsAccepted(p: Params, s: State, tx: Tx, confirms: seq<Confirm>, lookup: Lookup, subject: Subject)
    requires p.Sound() && Inv(p, s) && tx.newNonce == s.contract.nonce + 1
    requires var vs := LastValsetAtMost(s.chain, s.contract.nonce).value;
             tx.currentNonce == vs.nonce && tx.current == vs.members && tx.validators == EthValidators(vs.members)
    requires Backed(p, s.signed, lookup, subject, TxDigest(p, tx))
    requires IsQuorum(confirms, lookup, subject, tx.current, p.threshold(tx.current))
    requires Aligned(tx.slots, SigsMap(confirms), tx.current)
    ensures Enabled(p, s, Execute(tx)) && FullySigned(p, tx)
  {
    hide IsQuorum, EthPowerOf, SigsMap, Aligned, Backed, EthValidators, Registered, TxDigest, Params.Sound,
         ProperValset, BigEndian;
    TrustedValsetIsProper(p, s);
    CollectedQuorumIsSigned(p, s.signed, tx, confirms, lookup, subject);
    var n := |tx.slots|;
    assert tx.slots[..n] == tx.slots && tx.validators[..n] == tx.validators;
    assert EnoughSigned(p, tx, n);
  }

  lemma BackedIsSound(p: Params, signed: set<(Address, SignBytes)>, lookup: Lookup, subject: Subject, digest: SignBytes,
                      members: seq<Member>)
    requires Backed(p, signed, lookup, subject, digest) && forall m | m in members :: IsHexAddress(m.evmAddress)
    ensures SoundLookup(lookup, subject, members)
  {
    assert forall i | 0 <= i < |members| :: members[i] in members;
  }

  /** The signature in a filled slot is the one its own member was found to have published. */
  lemma FilledSlotRecovers(p: Params, signed: set<(Address, SignBytes)>, lookup: Lookup, subject: Subject, digest: SignBytes,
                           members: seq<Member>, slots: seq<Vrs>, i: nat)
    requires p.scheme.AgreesOnV() && Backed(p, signed, lookup, subject, digest)
    requires DistinctIgnoringCase(members) && SoundLookup(lookup, subject, members)
    requires forall m | m in members :: IsHexAddress(m.evmAddress)
    requires Gather(lookup, subject, members).Ok?
    requires Aligned(slots, SigsMap(Gather(lookup, subject, members).value), members)
    requires i < |slots| && slots[i].Vrs? && ExactMarks(lookup, subject, members)[i]
    ensures Recovered(p.scheme, digest, slots[i]) == Some(AddressOf(members[i].evmAddress))
    ensures (AddressOf(members[i].evmAddress), digest) in signed
    ensures 0 < BigEndian(slots[i].s) <= SECP256K1_N / 2
  {
    var addr := members[i].evmAddress;
    assert members[i] in members && Exact(lookup, subject, members[i]);
    ExactSignature(lookup, subject, members, i);
    SlotRecovers(p.scheme, AddressOf(addr), digest, lookup(subject.Key(addr)).confirm.signature, slots[i]);
  }

  lemma GoodTxStays(p: Params, s: State, s': State, tx: Tx)
    requires Grows(s, s') && GoodTx(p, s, tx)
    ensures GoodTx(p, s', tx)
  {
  }
}
