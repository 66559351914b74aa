/** relayer/relayer.go: the loop that brings the contract up to date with the chain. */
module Relayer {
  import opened Wrappers
  import opened Hex
  import opened Keys
  import opened Types
  import opened Chain
  import opened History
  import opened Ethereum
  import opened Signature
  import opened Quorum
  import opened Protocol
  import opened Surroundings
  import Validators
  import EvmClient
  import SignatureStore

  datatype RelayError =
    | Fault
    | AttestationNotFound
    | UnknownAttestationType
    | ValidatorSetMismatch
    | NoConfirms(query: QueryError)
    | UnusableSignature(sig: SigError)
    | InvalidAddress
    | StoreFailed

  /** How processFunc ends: with nil, with the context's error, or with another error. */
  datatype Outcome = UpToDate | Stopped | Erred(error: RelayError)

  /** Either the contract has moved on, or this is the valset whose signatures it will ask for nonce n. */
  ghost predicate RightValset(s: State, vs: Valset, n: nat) {
    s.contract.nonce + 1 == n ==>
      var last := LastValsetBefore(s.chain, n);
      last.Some? && vs.nonce == last.value.nonce && vs.members == last.value.members
  }

  lemma RightValsetStays(p: Params, s: State, s': State, vs: Valset, n: nat)
    requires Inv(p, s) && Grows(s, s') && n <= s.contract.nonce + 1 && RightValset(s, vs, n)
    ensures RightValset(s', vs, n)
  {
    if s'.contract.nonce + 1 == n {
      LastValsetStable(s.chain, s'.chain, n - 1);
    }
  }

  /** A transaction assembled from a quorum collected for the right valset is good. */
  lemma AssembledTxIsGood(p: Params, s: State, tx: Tx, current: Valset, queried: Valset,
                          confirms: seq<Confirm>, lookup: Lookup, subject: Subject)
    requires p.Sound() && Inv(p, s) && tx.newNonce <= s.contract.nonce + 1
    requires RightValset(s, current, tx.newNonce) && RightValset(s, queried, tx.newNonce)
    requires tx.current == current.members && tx.validators == EthValidators(tx.current)
    requires tx.newNonce != 1 ==> tx.currentNonce == current.nonce
    requires Backed(p, s.signed, lookup, subject, TxDigest(p, tx))
    requires IsQuorum(confirms, lookup, subject, queried.members, p.threshold(queried.members))
    requires Aligned(tx.slots, SigsMap(confirms), tx.current)
    ensures GoodTx(p, s, tx)
  {
    hide Params.Sound, Aligned, SigsMap, IsQuorum, Backed, Enabled, FullySigned, ProperChain, GenuineDht, HonestlySigned;
    if tx.newNonce == s.contract.nonce + 1 {
      assert queried.members == tx.current;
      CollectedQuorumIsAccepted(p, s, tx, confirms, lookup, subject);
    }
  }

  lemma {:induction false} FullLookupNeverFails(p: Params, s: State, subject: Subject, members: seq<Member>)
    requires GenuineDht(p, s)
    ensures Gather(FullLookup(p, s.dht), subject, members).Ok?
  {
    hide GenuineDht;
    if members != [] {
      var n := |members| - 1;
      FullLookupNeverFails(p, s, subject, members[..n]);
      var key := subject.Key(members[n].evmAddress);
      if key in s.dht {
        GenuineDecodes(p, s, key);
      }
    }
  }

  lemma FullLookupIsBacked(p: Params, s: State, subject: Subject, digest: SignBytes)
    requires GenuineDht(p, s) && subject.digest == HashHex(digest) && subject.nonce < UINT64_LIMIT
    ensures Backed(p, s.signed, FullLookup(p, s.dht), subject, digest)
  {
    hide GenuineDht, Validators.SignedBy;
    var lookup := FullLookup(p, s.dht);
    forall addr | IsHexAddress(addr) && lookup(subject.Key(addr)).Found?
      ensures var c := lookup(subject.Key(addr)).confirm;
              && Lower(c.ethAddress) == Lower(addr)
              && Validators.SignedBy(p.scheme, AddressOf(addr), digest, c.signature)
              && (AddressOf(addr), digest) in s.signed
    {
      DhtEntryIsBacked(p, s, subject.kind, subject.nonce, addr, digest);
    }
  }

  /** The transaction for the contract's next nonce, checked against the valset it trusts. */
  function NextTx(p: Params, s: State, payload: Payload, slots: seq<Vrs>): Tx
    requires LastValsetAtMost(s.chain, s.contract.nonce).Some?
  {
    var vs := LastValsetAtMost(s.chain, s.contract.nonce).value;
    Tx(s.contract.nonce + 1, payload, vs.nonce, vs.members, EthValidators(vs.members), slots)
  }

  /** The signature published under the member's own address is one that SigToVRS takes. */
  ghost predicate AcceptableFor(lookup: Lookup, subject: Subject, m: Member) {
    var answer := lookup(subject.Key(m.evmAddress));
    answer.Found? && Acceptable(FromHex(Lower(answer.confirm.signature)))
  }

  /** The signatures of one pass can be laid out exactly when each exact confirm carries an acceptable one. */
  lemma LaidOutIff(lookup: Lookup, subject: Subject, members: seq<Member>)
    requires DistinctIgnoringCase(members) && SoundLookup(lookup, subject, members)
    requires Gather(lookup, subject, members).Ok?
    ensures (exists slots :: Aligned(slots, SigsMap(Gather(lookup, subject, members).value), members))
       <==> forall i | 0 <= i < |members| && Exact(lookup, subject, members[i]) :: AcceptableFor(lookup, subject, members[i])
  {
    var sigs := SigsMap(Gather(lookup, subject, members).value);
    hide Gather, SigsMap, Acceptable, DistinctIgnoringCase, SoundLookup, SigToVRS, Lower, FromHex;
    SlotsExistIff(sigs, members);
    MapMarksAreExact(lookup, subject, members);
    forall i | 0 <= i < |members|
      ensures members[i].evmAddress in sigs <==> Exact(lookup, subject, members[i])
      ensures Exact(lookup, subject, members[i]) ==>
                (SigToVRS(sigs[members[i].evmAddress]).Ok? <==> AcceptableFor(lookup, subject, members[i]))
    {
      assert Marks(members, sigs)[i] == ExactMarks(lookup, subject, members)[i];
      if Exact(lookup, subject, members[i]) {
        ExactSignature(lookup, subject, members, i);
        SigToVRSIff(sigs[members[i].evmAddress]);
      }
    }
  }

  /**
   What is in the DHT is enough: if the members of the trusted valset whose confirms for the
   next attestation are there reach the threshold, then one full pass collects them; and they
   can be laid out, which the contract then accepts, exactly when SigToVRS takes the signature
   of every one of them. The validators of the DHT do not see to that.
   */
  lemma EnoughConfirmsAreAccepted(p: Params, s: State, payload: Payload, subject: Subject)
    requires p.Sound() && Inv(p, s)
    requires subject.nonce == s.contract.nonce + 1 < UINT64_LIMIT
    requires subject.digest == HashHex(TxDigest(p, NextTx(p, s, payload, [])))
    requires var members := NextTx(p, s, payload, []).current;
             PowerOf(members, ExactMarks(FullLookup(p, s.dht), subject, members)) >= p.threshold(members)
    ensures var members, lookup := NextTx(p, s, payload, []).current, FullLookup(p, s.dht);
            var r := Poll([Tick(lookup)], subject, members, p.threshold(members));
            && r.Ok?
            && ((exists slots :: Aligned(slots, SigsMap(r.value), members)) <==>
                  forall i | 0 <= i < |members| && Exact(lookup, subject, members[i]) :: AcceptableFor(lookup, subject, members[i]))
            && (forall slots | Aligned(slots, SigsMap(r.value), members) ::
                  GoodTx(p, s, NextTx(p, s, payload, slots)))
  {
    var lookup, digest := FullLookup(p, s.dht), TxDigest(p, NextTx(p, s, payload, []));
    var members := NextTx(p, s, payload, []).current;
    hide Gather, Poll, Tally, PowerOf, SigsMap, Aligned, ExactMarks, FullLookup, Accepts, Backed, IsQuorum, Exact, AcceptableFor;
    FullLookupNeverFails(p, s, subject, members);
    FullLookupIsBacked(p, s, subject, digest);
    TrustedValsetIsProper(p, s);
    BackedIsSound(p, s.signed, lookup, subject, digest, members);
    PassSucceedsIff(p.threshold, lookup, subject, members);
    var r := Poll([Tick(lookup)], subject, members, p.threshold(members));
    var k := PollSucceeds([Tick(lookup)], subject, members, p.threshold(members));
    QuorumIsGathered(r.value, lookup, subject, members, p.threshold(members));
    LaidOutIff(lookup, subject, members);
    forall slots | Aligned(slots, SigsMap(r.value), members) ensures GoodTx(p, s, NextTx(p, s, payload, slots)) {
      CollectedQuorumIsAccepted(p, s, NextTx(p, s, payload, slots), r.value, lookup, subject);
    }
  }

  lemma QuorumIsGathered(confirms: seq<Confirm>, lookup: Lookup, subject: Subject, members: seq<Member>, threshold: nat)
    requires IsQuorum(confirms, lookup, subject, members, threshold)
    ensures Gather(lookup, subject, members) == Ok(confirms)
  {
  }

  /**
   The failing input: a signature whose s is out of range, but which recovers to the member,
   passes the DHT's validator under the member's key; and once it has been collected no array
   can be made, whatever the rest of the quorum.
   */
  lemma HighSBlocksTheRelay(kind: ConfirmKind, scheme: Scheme, codec: Validators.Codec<Confirm>, nonce: nat,
                            account: Address, digest: SignBytes, sig: seq<byte>)
    requires codec.RoundTrips() && nonce < UINT64_LIMIT
    requires |sig| == 65 && scheme.recover(ProtectedHash(scheme, digest), sig) == Some(account)
    requires BigEndian(sig[32..64]) >= THRESHOLD
    ensures var c := Confirm(HexAddress(scheme, account), Encode(sig));
            && Validators.Validate(kind, scheme, codec, ConfirmKey(kind, nonce, c.ethAddress, HashHex(digest)), codec.encode(c)).None?
            && SigToVRS(c.signature).Err?
            && forall sigs: map<string, string>, members: seq<Member>, slots: seq<Vrs>, i: int ::
                 0 <= i < |members| && members[i].evmAddress in sigs && sigs[members[i].evmAddress] == c.signature
                 ==> !Aligned(slots, sigs, members)
  {
    var c := Confirm(HexAddress(scheme, account), Encode(sig));
    Validators.RecoverableValidates(kind, scheme, codec, account, nonce, digest, sig);
    EncodeIsLower(sig);
    SpellingDoesNotMatter(c.signature, sig);
  }

  // --- when the next attestation can be relayed ---

  /** Its confirms in the DHT are a quorum of these members, and SigToVRS takes the signatures of all that count. */
  ghost predicate Supported(p: Params, dht: map<string, seq<byte>>, subject: Subject, members: seq<Member>) {
    var lookup := FullLookup(p, dht);
    && PowerOf(members, ExactMarks(lookup, subject, members)) >= p.threshold(members)
    && forall i | 0 <= i < |members| && Exact(lookup, subject, members[i]) :: AcceptableFor(lookup, subject, members[i])
  }

  /** Attestation n is supported by the valset before it. */
  ghost predicate Ready(p: Params, s: State, n: nat) {
    && 2 <= n <= |s.chain| && p.Digest(s.chain[n - 1]).Some? && LastValsetBefore(s.chain, n).Some?
    && Supported(p, s.dht, SubjectOf(p, s.chain[n - 1]), LastValsetBefore(s.chain, n).value.members)
  }

  /** A poll on a quiet network, where every pass is complete and finds the same. */
  lemma QuietPoll(p: Params, s: State, subject: Subject, digest: SignBytes, members: seq<Member>, events: seq<PollEvent>)
    requires p.Sound() && GenuineDht(p, s) && ProperValset(p, members)
    requires subject.digest == HashHex(digest) && subject.nonce < UINT64_LIMIT
    requires events != [] && events[0] == Tick(FullLookup(p, s.dht))
    requires forall e | e in events && e.Tick? :: e.lookup == FullLookup(p, s.dht)
    ensures var lookup, r := FullLookup(p, s.dht), Poll(events, subject, members, p.threshold(members));
            && (r.Ok? <==> PowerOf(members, ExactMarks(lookup, subject, members)) >= p.threshold(members))
            && (r.Ok? ==> r == Gather(lookup, subject, members))
  {
    hide Gather, Poll, Tally, PowerOf, ExactMarks, FullLookup, GenuineDht, Backed;
    var lookup := FullLookup(p, s.dht);
    FullLookupNeverFails(p, s, subject, members);
    FullLookupIsBacked(p, s, subject, digest);
    BackedIsSound(p, s.signed, lookup, subject, digest, members);
    PassSucceedsIff(p.threshold, lookup, subject, members);
    SamePassesDecideAtOnce(events, lookup, subject, members, p.threshold(members));
  }

  /** What such a poll found can be laid out exactly when the members are supported. */
  lemma QuietLayOut(p: Params, s: State, subject: Subject, digest: SignBytes, members: seq<Member>, confirms: seq<Confirm>)
    requires p.Sound() && GenuineDht(p, s) && ProperValset(p, members)
    requires subject.digest == HashHex(digest) && subject.nonce < UINT64_LIMIT
    requires Gather(FullLookup(p, s.dht), subject, members) == Ok(confirms)
    requires PowerOf(members, ExactMarks(FullLookup(p, s.dht), subject, members)) >= p.threshold(members)
    ensures (exists slots :: Aligned(slots, SigsMap(confirms), members)) <==> Supported(p, s.dht, subject, members)
  {
    hide Gather, PowerOf, ExactMarks, FullLookup, GenuineDht, Backed, Aligned, SigsMap, Exact, AcceptableFor, SoundLookup;
    var lookup := FullLookup(p, s.dht);
    FullLookupIsBacked(p, s, subject, digest);
    BackedIsSound(p, s.signed, lookup, subject, digest, members);
    LaidOutIff(lookup, subject, members);
  }

  /** After `before`, the nonces from..to-1 were submitted, in this order and once each. */
  ghost predicate SentInOrder(before: seq<Tx>, sent: seq<Tx>, from: nat, to: nat) {
    && from <= to && before <= sent && |sent| == |before| + (to - from)
    && forall k | |before| <= k < |sent| :: sent[k].newNonce == from + (k - |before|)
  }

  /** The store has grown by a save of confirms, and the slots hold signatures of these. */
  ghost predicate Saved(before: map<string, Confirm>, after: map<string, Confirm>, subject: Subject, tx: Tx) {
    exists confirms ::
      after == SignatureStore.AfterSave(before, (subject, confirms)) && Aligned(tx.slots, SigsMap(confirms), tx.current)
  }

  lemma ReadyAlike(p: Params, s: State, s': State, n: nat)
    requires s'.chain == s.chain && s'.dht == s.dht
    ensures Ready(p, s, n) <==> Ready(p, s', n)
  {
  }

  lemma OneMoreSent(before: seq<Tx>, mid: seq<Tx>, sent: seq<Tx>, from: nat, to: nat)
    requires SentInOrder(before, mid, from, to) && mid <= sent && |sent| == |mid| + 1 && sent[|mid|].newNonce == to
    ensures SentInOrder(before, sent, from, to + 1)
  {
    assert forall k | 0 <= k < |mid| :: sent[k] == mid[k];
  }

  class Relayer {
    const net: Network
    const store: SignatureStore.Store
    const isBackup: bool
    var shouldRelay: bool
    ghost var waits: nat
    ghost var mined: nat
    ghost var sent: seq<Tx>
    ghost var ends: seq<Outcome>  // how the calls of processFunc ended

    /**
     Every transaction ever sent is good: if the contract is waiting for its nonce, the
     contract accepts it. A backup has waited once for every mined transaction, and once
     more if it is about to relay.
     */
    ghost predicate Valid()
      reads this, net
    {
      && net.Valid()
      && (forall tx | tx in sent :: GoodTx(net.p, net.s, tx))
      && (if isBackup then waits == mined + (if shouldRelay then 1 else 0) else waits == 0 && !shouldRelay)
    }

    constructor (net: Network, store: SignatureStore.Store, isBackup: bool)
      requires net.Valid()
      ensures Valid() && this.net == net && this.store == store && this.isBackup == isBackup && sent == []
    {
      this.net := net;
      this.store := store;
      this.isBackup := isBackup;
      shouldRelay := false;
      waits, mined, sent, ends := 0, 0, [], [];
    }

    method QueryValsetFromP2PNetworkAndValidateIt(ghost n: nat) returns (r: Result<Valset, RelayError>)
      requires net.Valid() && n <= net.s.contract.nonce + 1
      modifies net
      ensures net.Since(old(net.s))
      ensures r.Ok? ==> RightValset(net.s, r.value, n)
      ensures net.quiet && {DhtValset, ContractQuery} <= net.sure ==> r.Ok?
    {
      var latest := net.LatestValsetFromDht();
      if latest.None? {
        return Err(Fault);
      }
      var vs := ToValset(latest.value);
      var vsHash := net.p.valsetDigest(vs.nonce, vs.members);
      var contractHash := net.Checkpoint();
      if contractHash.None? {
        return Err(Fault);
      }
      if vsHash != contractHash.value {
        return Err(ValidatorSetMismatch);
      }
      if net.s.contract.nonce + 1 == n {
        AuthenticatedValset(net.p, net.s, latest.value, n);
      }
      return Ok(vs);
    }

    /** The valset to collect signatures of: from the state, from the DHT, or from an archive; any of them will do. */
    method PreviousValset(n: nat, period: nat) returns (r: Result<Valset, RelayError>)
      requires net.Valid() && 1 <= n <= net.s.contract.nonce + 1 && period >= 1
      modifies net
      ensures net.Since(old(net.s))
      ensures r.Ok? ==> RightValset(net.s, r.value, n)
      ensures n >= 2 && net.FindsValset() ==> r.Ok?
    {
      hide Params.Sound, TrustsLastValset;
      var previous := net.LastValsetBeforeNonce(n);
      if previous.Some? {
        return Ok(previous.value);
      }
      if n >= 2 {
        ValsetExists(n);
      }
      r := QueryValsetFromP2PNetworkAndValidateIt(n);
      if r.Ok? {
        return;
      }
      r := ArchivedValset(n, period);
    }

    lemma NextNonce()
      requires net.Valid()
      ensures 1 <= net.s.contract.nonce <= |net.s.chain| && LastValsetBefore(net.s.chain, net.s.contract.nonce + 1).Some?
    {
    }

    lemma RightIsProper(vs: Valset, n: nat)
      requires net.Valid() && RightValset(net.s, vs, n) && n == net.s.contract.nonce + 1
      ensures ProperValset(net.p, vs.members)
    {
      TrustedValsetIsProper(net.p, net.s);
    }

    /** There is a valset before every nonce but the first. */
    lemma ValsetExists(n: nat)
      requires net.Valid() && 2 <= n
      ensures LastValsetBefore(net.s.chain, n).Some?
    {
      LastValsetExists(net.s.chain, n - 1);
    }

    method ArchivedValset(n: nat, period: nat) returns (r: Result<Valset, RelayError>)
      requires net.Valid() && 1 <= n <= net.s.contract.nonce + 1 && period >= 1
      modifies net
      ensures net.Since(old(net.s))
      ensures r.Ok? ==> RightValset(net.s, r.value, n)
      ensures n >= 2 && ArchiveQuery in net.sure ==> r.Ok?
    {
      hide Inv, Params.Sound, Strided, WalkBack, WalkCost;
      var noHeight := net.Fails(ArchiveQuery);
      if noHeight {
        return Err(Fault);
      }
      var archive, height, patience := net.ArchiveAnswers(n, period);
      NextNonce();
      var found := SearchLastValsetBefore(archive, n, height, period, patience);
      if n >= 2 && ArchiveQuery in net.sure {
        ValsetExists(n);
        WalkBackIsComplete(archive, net.s.chain, n - 1, height, period);
      }
      if found.Err? {
        return Err(Fault);
      }
      WalkBackIsRight(archive, net.s.chain, n - 1, height, period);
      return Ok(found.value);
    }

    /** Two thirds of the confirms of a digest; `lookup` is the pass in which they were found. */
    method CollectConfirms(subject: Subject, digest: SignBytes, members: seq<Member>)
      returns (r: Result<seq<Confirm>, RelayError>, ghost lookup: Lookup)
      requires net.Valid() && subject.digest == HashHex(digest) && subject.nonce < UINT64_LIMIT
      modifies net
      ensures net.Since(old(net.s))
      ensures r.Ok? ==> IsQuorum(r.value, lookup, subject, members, net.p.threshold(members))
      ensures r.Ok? ==> Backed(net.p, net.s.signed, lookup, subject, digest)
      ensures forall j | EndsAt(net.met, j, subject, members, net.p.threshold(members)) ::
                match net.met[j]
                case Tick(pass) =>
                  && (r.Ok? <==> Gather(pass, subject, members).Ok?)
                  && (r.Ok? ==> Gather(pass, subject, members) == Ok(r.value))
                case _ => r.Err?
      ensures net.quiet && DhtConfirms in net.sure && ProperValset(net.p, members) ==>
                var full := FullLookup(net.p, net.s.dht);
                && (r.Ok? <==> PowerOf(members, ExactMarks(full, subject, members)) >= net.p.threshold(members))
                && (r.Ok? ==> Gather(full, subject, members) == Ok(r.value))
    {
      hide Gather, Poll, Tally, PowerOf, ExactMarks, FullLookup, Backed, ProperValset, Params.Sound, GenuineDht;
      var first, events := net.ConfirmLookups(subject, digest);
      var found := QueryTwoThirds(first, events, subject, members, net.p.threshold(members));
      lookup := first;
      ghost var all := [Tick(first)] + events;
      if net.quiet && DhtConfirms in net.sure && ProperValset(net.p, members) {
        assert all[0] == Tick(first);
        QuietPoll(net.p, net.s, subject, digest, members, all);
      }
      if found.Err? {
        return Err(NoConfirms(found.error)), lookup;
      }
      ghost var k := PollSucceeds(all, subject, members, net.p.threshold(members));
      lookup := all[k].lookup;
      assert k > 0 ==> all[k] == events[k - 1] && events[k - 1] in events;
      return Ok(found.value), lookup;
    }

    /** The signature array for the confirms, in the order of the valset, if there is one. */
    method LayOut(confirms: seq<Confirm>, members: seq<Member>) returns (r: Result<seq<Vrs>, RelayError>)
      ensures r.Ok? ==> Aligned(r.value, SigsMap(confirms), members)
      ensures r.Ok? <==> exists slots :: Aligned(slots, SigsMap(confirms), members)
    {
      hide SigToVRS;
      var sigsMap := BuildSigsMap(confirms);
      var slots := MatchAttestationConfirmSigs(sigsMap, members);
      SlotsExistIff(sigsMap, members);
      return match slots case Ok(v) => Ok(v) case Err(e) => Err(UnusableSignature(e));
    }

    /** The current valset is queried again, without any fallback. */
    method UpdateValidatorSet(valset: Valset, previous: Valset, confirms: seq<Confirm>,
                              ghost lookup: Lookup, subject: Subject)
      returns (r: Result<Tx, RelayError>)
      requires net.Valid() && valset.nonce <= net.s.contract.nonce + 1
      requires RightValset(net.s, previous, valset.nonce)
      requires IsQuorum(confirms, lookup, subject, previous.members, net.p.threshold(previous.members))
      requires Backed(net.p, net.s.signed, lookup, subject, net.p.valsetDigest(valset.nonce, valset.members))
      modifies net
      ensures net.Since(old(net.s))
      ensures r.Ok? ==> r.value.newNonce == valset.nonce && r.value.payload == NewValset(valset.members)
      ensures r.Ok? ==> GoodTx(net.p, net.s, r.value) && Aligned(r.value.slots, SigsMap(confirms), r.value.current)
      ensures net.quiet && ValsetQuery in net.sure && valset.nonce == net.s.contract.nonce + 1 ==>
                (r.Ok? <==> exists slots :: Aligned(slots, SigsMap(confirms), previous.members))
    {
      hide Inv, Params.Sound, IsQuorum, Backed, Aligned, SigsMap, GoodTx, LastValsetBefore;
      var currentValset := valset;
      if valset.nonce != 1 {
        var vs := net.LastValsetBeforeNonce(valset.nonce);
        if vs.None? {
          return Err(Fault);
        }
        currentValset := vs.value;
      }
      RightValsetStays(net.p, old(net.s), net.s, previous, valset.nonce);
      NextNonce();
      BackedStays(net.p, old(net.s).signed, net.s.signed, lookup, subject, net.p.valsetDigest(valset.nonce, valset.members));
      if valset.nonce == net.s.contract.nonce + 1 {
        RightIsProper(previous, valset.nonce);
      }
      var slots := LayOut(confirms, currentValset.members);
      if slots.Err? {
        return Err(slots.error);
      }
      var tx := EvmClient.UpdateValidatorSet(valset.nonce, currentValset, valset, slots.value);
      if tx.Err? {
        return Err(InvalidAddress);
      }
      AssembledTxIsGood(net.p, net.s, tx.value, currentValset, previous, confirms, lookup, subject);
      return Ok(tx.value);
    }

    method SubmitDataRootTupleRoot(nonce: nat, previous: Valset, root: Hash, confirms: seq<Confirm>,
                                   ghost lookup: Lookup, subject: Subject)
      returns (r: Result<Tx, RelayError>)
      requires net.Valid() && nonce <= net.s.contract.nonce + 1
      requires RightValset(net.s, previous, nonce)
      requires IsQuorum(confirms, lookup, subject, previous.members, net.p.threshold(previous.members))
      requires Backed(net.p, net.s.signed, lookup, subject, net.p.rootDigest(nonce, root))
      ensures r.Ok? ==> r.value.newNonce == nonce && r.value.payload == NewRoot(root)
      ensures r.Ok? ==> GoodTx(net.p, net.s, r.value) && Aligned(r.value.slots, SigsMap(confirms), r.value.current)
      ensures nonce == net.s.contract.nonce + 1 ==>
                (r.Ok? <==> exists slots :: Aligned(slots, SigsMap(confirms), previous.members))
    {
      hide Inv, Params.Sound, IsQuorum, Backed, Aligned, SigsMap, GoodTx, LastValsetBefore;
      if nonce == net.s.contract.nonce + 1 {
        RightIsProper(previous, nonce);
      }
      var slots := LayOut(confirms, previous.members);
      if slots.Err? {
        return Err(slots.error);
      }
      var tx := EvmClient.SubmitDataRootTupleRoot(root, nonce, previous, slots.value);
      if tx.Err? {
        return Err(InvalidAddress);
      }
      AssembledTxIsGood(net.p, net.s, tx.value, previous, previous, confirms, lookup, subject);
      return Ok(tx.value);
    }

    /** Saving the confirms; a sure store has no faults. */
    method SaveConfirms(subject: Subject, confirms: seq<Confirm>) returns (failed: bool)
      modifies store
      ensures store.stored == if failed then old(store.stored)
                              else SignatureStore.AfterSave(old(store.stored), (subject, confirms))
      ensures Storage in net.sure ==> !failed
    {
      var faults: SignatureStore.StoreFaults := *;
      if Storage in net.sure {
        faults := SignatureStore.StoreFaults(false, {}, {}, false);
      }
      var err := store.Save(subject, confirms, faults);
      return err.Some?;
    }

    method ProcessValset(valset: Valset, previous: Valset) returns (r: Result<Tx, RelayError>)
      requires net.Valid() && valset.nonce <= net.s.contract.nonce + 1 && valset.nonce < UINT64_LIMIT
      requires RightValset(net.s, previous, valset.nonce)
      modifies net, store
      ensures net.Since(old(net.s))
      ensures r.Ok? ==> r.value.newNonce == valset.nonce && r.value.payload == NewValset(valset.members)
      ensures r.Ok? ==> GoodTx(net.p, net.s, r.value)
      ensures r.Ok? ==> Saved(old(store.stored), store.stored, SubjectOf(net.p, ValsetAtt(valset)), r.value)
      ensures net.quiet && {ValsetQuery, DhtConfirms, Storage} <= net.sure && valset.nonce == net.s.contract.nonce + 1 ==>
                (r.Ok? <==> Supported(net.p, net.s.dht, SubjectOf(net.p, ValsetAtt(valset)), previous.members))
    {
      hide Params.Sound, IsQuorum, Backed, GoodTx, Gather, Supported, Aligned, SigsMap, PowerOf, ExactMarks, FullLookup,
           ProperValset, SignatureStore.Fresh, GenuineDht, LastValsetAtMost;
      var signBytes := net.p.valsetDigest(valset.nonce, valset.members);
      var subject := Subject(ValsetConfirms, valset.nonce, HashHex(signBytes));
      var confirms, lookup := CollectConfirms(subject, signBytes, previous.members);
      RightValsetStays(net.p, old(net.s), net.s, previous, valset.nonce);
      SupportedIsFound(subject, signBytes, previous, confirms);
      if confirms.Err? {
        return Err(confirms.error);
      }
      var failed := SaveConfirms(subject, confirms.value);
      if failed {
        return Err(StoreFailed);
      }
      r := UpdateValidatorSet(valset, previous, confirms.value, lookup, subject);
    }

    /** On a quiet network collecting and laying out succeed exactly when the trusted valset supports the subject. */
    lemma SupportedIsFound(subject: Subject, digest: SignBytes, previous: Valset, confirms: Result<seq<Confirm>, RelayError>)
      requires net.Valid() && RightValset(net.s, previous, subject.nonce)
      requires subject.digest == HashHex(digest) && subject.nonce < UINT64_LIMIT
      requires ProperValset(net.p, previous.members) ==>
                 var full, members := FullLookup(net.p, net.s.dht), previous.members;
                 net.quiet && DhtConfirms in net.sure ==>
                   && (confirms.Ok? <==> PowerOf(members, ExactMarks(full, subject, members)) >= net.p.threshold(members))
                   && (confirms.Ok? ==> Gather(full, subject, members) == Ok(confirms.value))
      ensures net.quiet && DhtConfirms in net.sure && subject.nonce == net.s.contract.nonce + 1 ==>
                (Supported(net.p, net.s.dht, subject, previous.members) <==>
                   confirms.Ok? && exists slots :: Aligned(slots, SigsMap(confirms.value), previous.members))
    {
      hide Params.Sound, Gather, Aligned, SigsMap, PowerOf, ExactMarks, FullLookup, ProperValset, Exact, AcceptableFor;
      if net.quiet && DhtConfirms in net.sure && subject.nonce == net.s.contract.nonce + 1 {
        TrustedValsetIsProper(net.p, net.s);
        if confirms.Ok? {
          QuietLayOut(net.p, net.s, subject, digest, previous.members, confirms.value);
        }
      }
    }

    method ProcessCommitment(nonce: nat, beginBlock: nat, endBlock: nat, previous: Valset) returns (r: Result<Tx, RelayError>)
      requires net.Valid() && nonce <= net.s.contract.nonce + 1 && nonce < UINT64_LIMIT
      requires RightValset(net.s, previous, nonce)
      modifies net, store
      ensures net.Since(old(net.s))
      ensures r.Ok? ==> r.value.newNonce == nonce && r.value.payload == NewRoot(net.p.commitment(beginBlock, endBlock))
      ensures r.Ok? ==> GoodTx(net.p, net.s, r.value)
      ensures var subject := SubjectOf(net.p, CommitmentAtt(nonce, beginBlock, endBlock));
              && (r.Ok? ==> Saved(old(store.stored), store.stored, subject, r.value))
              && (net.quiet && {CommitmentQuery, DhtConfirms, Storage} <= net.sure && nonce == net.s.contract.nonce + 1 ==>
                    (r.Ok? <==> Supported(net.p, net.s.dht, subject, previous.members)))
    {
      hide Params.Sound, IsQuorum, Backed, GoodTx, Gather, Supported, Aligned, SigsMap, PowerOf, ExactMarks, FullLookup,
           ProperValset, SignatureStore.Fresh, GenuineDht, LastValsetAtMost;
      var commitment := net.Commitment(beginBlock, endBlock);
      if commitment.None? {
        return Err(Fault);
      }
      RightValsetStays(net.p, old(net.s), net.s, previous, nonce);
      var dataRootHash := net.p.rootDigest(nonce, commitment.value);
      var subject := Subject(CommitmentConfirms, nonce, HashHex(dataRootHash));
      ghost var before := net.s;
      var confirms, lookup := CollectConfirms(subject, dataRootHash, previous.members);
      RightValsetStays(net.p, before, net.s, previous, nonce);
      SupportedIsFound(subject, dataRootHash, previous, confirms);
      if confirms.Err? {
        return Err(confirms.error);
      }
      var failed := SaveConfirms(subject, confirms.value);
      if failed {
        return Err(StoreFailed);
      }
      r := SubmitDataRootTupleRoot(nonce, previous, commitment.value, confirms.value, lookup, subject);
    }

    /** Nobody else acts, and nothing fails that relaying this attestation needs. */
    ghost predicate Served(att: Attestation) {
      && net.quiet && net.FindsValset() && {DhtConfirms, Storage, Submission} <= net.sure
      && (att.ValsetAtt? ==> ValsetQuery in net.sure)
      && (att.CommitmentAtt? ==> CommitmentQuery in net.sure)
    }

    /**
     A transaction for the attestation, good whichever of the three sources gave the valset it
     is checked against, and made of signatures that have been saved. If nothing interferes,
     there is one exactly when the attestation is ready.
     */
    method ProcessAttestation(att: Attestation, period: nat) returns (r: Result<Tx, RelayError>)
      requires net.Valid() && 1 <= att.Nonce() <= net.s.contract.nonce + 1 && att.Nonce() < UINT64_LIMIT && period >= 1
      modifies net, store
      ensures net.Since(old(net.s))
      ensures r.Ok? ==> r.value.newNonce == att.Nonce() && net.p.Digest(att) == Some(TxDigest(net.p, r.value))
      ensures r.Ok? ==> GoodTx(net.p, net.s, r.value)
      ensures r.Ok? ==> Saved(old(store.stored), store.stored, SubjectOf(net.p, att), r.value)
      ensures var n := att.Nonce();
              Served(att) && n == net.s.contract.nonce + 1 <= |net.s.chain| && net.s.chain[n - 1] == att ==>
                (r.Ok? <==> Ready(net.p, net.s, n))
    {
      hide Inv, Params.Sound, GoodTx, Saved, Supported, LastValsetBefore, FullLookup;
      NextNonce();
      var previous := PreviousValset(att.Nonce(), period);
      if previous.Err? {
        return Err(previous.error);
      }
      match att {
        case ValsetAtt(vs) => r := ProcessValset(vs, previous.value);
        case CommitmentAtt(n, b, e) => r := ProcessCommitment(n, b, e, previous.value);
        case UnknownAtt(_) => return Err(UnknownAttestationType);
      }
      if r.Ok? {
        ghost var built := net.s;
        var rejected := net.Fails(Submission);
        GoodTxStays(net.p, built, net.s, r.value);
        if rejected {
          r := Err(Fault);
        }
      }
    }

    /**
     processFunc. `turns` is after how many turns of the loop the context is cancelled; which
     may also happen while it waits for confirms.

     Whatever others do meanwhile, a nil result means that the contract has reached every
     attestation there was at the time of the call. If nobody else acts and nothing fails,
     then the relayer submits the missing nonces in order and once each, up to the first that
     is not ready, needs no more than two turns for each of them, and ends with nil exactly
     when all are ready.
     */
    method ProcessFunc(turns: nat, period: nat) returns (end: Outcome)
      requires Valid() && period >= 1
      modifies this, net, store
      ensures ends == old(ends) + [end]
      ensures Valid() && Grows(old(net.s), net.s) && old(sent) <= sent
      ensures end == UpToDate ==> net.s.contract.nonce >= |old(net.s).chain|
      ensures net.Calm() ==> net.s.chain == old(net.s).chain
      ensures net.Calm() ==> SentInOrder(old(sent), sent, old(net.s).contract.nonce + 1, net.s.contract.nonce + 1)
      ensures net.Calm() && end == UpToDate ==> net.s.contract.nonce == |net.s.chain|
      ensures net.Calm() && end == Stopped ==> turns <= 2 * (|net.s.chain| - old(net.s).contract.nonce)
      ensures net.Calm() && end.Erred? ==> !Ready(net.p, old(net.s), net.s.contract.nonce + 1)
      ensures net.Calm() && turns > 2 * (|net.s.chain| - old(net.s).contract.nonce) ==>
                (end == UpToDate <==> forall n | old(net.s).contract.nonce < n <= |net.s.chain| :: Ready(net.p, old(net.s), n))
    {
      hide Params.Sound, Inv, GoodTx, Ready;
      ghost var was := net.s;
      ghost var before := sent;
      for turn := 0 to turns
        invariant ends == old(ends)
        invariant Valid() && Grows(was, net.s) && before <= sent
        invariant net.Calm() ==> net.s.chain == was.chain && net.s.dht == was.dht
        invariant net.Calm() ==> SentInOrder(before, sent, was.contract.nonce + 1, net.s.contract.nonce + 1)
        invariant net.Calm() ==> turn <= 2 * (net.s.contract.nonce - was.contract.nonce) + (if shouldRelay then 1 else 0)
        invariant net.Calm() && net.s.contract.nonce == |net.s.chain| ==> !shouldRelay || turn == 0
        invariant net.Calm() ==> forall n | was.contract.nonce < n <= net.s.contract.nonce :: Ready(net.p, was, n)
      {
        ghost var mid, here := sent, net.s;
        var ended := Turn(period);
        if net.Calm() {
          ReadyAlike(net.p, was, here, here.contract.nonce + 1);
        }
        if ended.Some? {
          ends := ends + [ended.value];
          return ended.value;
        }
        if net.Calm() && !shouldRelay {
          OneMoreSent(before, mid, sent, was.contract.nonce + 1, here.contract.nonce + 1);
        }
      }
      NextNonce();
      ends := ends + [Stopped];
      return Stopped;
    }

    /** One turn of the loop. */
    method Turn(period: nat) returns (end: Option<Outcome>)
      requires Valid() && period >= 1
      modifies this, net, store
      ensures ends == old(ends)
      ensures Valid() && Grows(old(net.s), net.s) && old(sent) <= sent
      ensures end != Some(Stopped)
      ensures end == Some(UpToDate) ==> sent == old(sent) && net.s.contract.nonce >= |old(net.s).chain|
      ensures net.Calm() ==> net.s.chain == old(net.s).chain && net.s.dht == old(net.s).dht
      ensures net.Calm() && end.Some? ==> net.s == old(net.s) && sent == old(sent)
      ensures net.Calm() && end == Some(UpToDate) ==> net.s.contract.nonce == |net.s.chain|
      ensures net.Calm() && end.Some? && end != Some(UpToDate) ==>
                net.s.contract.nonce < |net.s.chain| && !Ready(net.p, net.s, net.s.contract.nonce + 1)
      ensures net.Calm() && end.None? ==> old(net.s).contract.nonce < |net.s.chain|
      ensures net.Calm() && end.None? && shouldRelay ==> !old(shouldRelay) && sent == old(sent) && net.s == old(net.s)
      ensures net.Calm() && end.None? && !shouldRelay ==>
                && Ready(net.p, old(net.s), old(net.s).contract.nonce + 1)
                && net.s.contract.nonce == old(net.s).contract.nonce + 1
                && |sent| == |old(sent)| + 1 && sent[|old(sent)|].newNonce == net.s.contract.nonce
    {
      hide Params.Sound, GoodTx, Ready, ProperChain, GenuineDht, HonestlySigned, LastValsetAtMost;
      ghost var here := net.s;
      var lastContractNonce := net.LastEventNonce();
      if lastContractNonce.None? {
        SentStaysGood(here);
        return Some(Erred(Fault));
      }
      var latestNonce := net.LatestAttestationNonce();
      SentStaysGood(here);
      if latestNonce.None? {
        return Some(Erred(Fault));
      }
      NextNonce();
      if lastContractNonce.value >= latestNonce.value {
        return Some(UpToDate);
      }
      if isBackup && !shouldRelay {
        net.Others();
        SentStaysGood(here);
        waits := waits + 1;
        shouldRelay := true;
        return None;
      }
      var err := RelayNext(lastContractNonce.value + 1, period);
      return if err.Some? then Some(Erred(err.value)) else None;
    }

    lemma SentStaysGood(was: State)
      requires Grows(was, net.s) && forall tx | tx in sent :: GoodTx(net.p, was, tx)
      ensures forall tx | tx in sent :: GoodTx(net.p, net.s, tx)
    {
      forall tx | tx in sent ensures GoodTx(net.p, net.s, tx) {
        GoodTxStays(net.p, was, net.s, tx);
      }
    }

    /** The rest of a turn: build the transaction, submit it, wait. */
    method RelayNext(n: nat, period: nat) returns (err: Option<RelayError>)
      requires Valid() && period >= 1 && 1 <= n <= net.s.contract.nonce + 1
      requires isBackup == shouldRelay
      modifies this, net, store
      ensures ends == old(ends)
      ensures Valid() && Grows(old(net.s), net.s) && old(sent) <= sent
      ensures err.None? ==> !shouldRelay
      ensures err.None? ==> |sent| == |old(sent)| + 1 && sent[|old(sent)|].newNonce == n
      ensures net.Calm() ==> net.s.chain == old(net.s).chain && net.s.dht == old(net.s).dht
      ensures net.Calm() && n == old(net.s).contract.nonce + 1 <= |net.s.chain| ==>
                && (err.None? <==> Ready(net.p, old(net.s), n))
                && (err.None? ==> net.s.contract.nonce == n)
                && (err.Some? ==> net.s == old(net.s) && sent == old(sent))
    {
      hide Params.Sound, Inv, Ready, Accepts, FullySigned, UnforgedTx;
      ghost var was := net.s;
      var tx := BuildNext(n, period);
      SentStaysGood(was);
      if tx.Err? {
        return Some(tx.error);
      }
      sent := sent + [tx.value];
      ghost var submitted := net.s;
      var failed := net.Await(tx.value);
      SentStaysGood(submitted);
      if failed {
        return Some(Fault);
      }
      mined, shouldRelay := mined + 1, false;
      return None;
    }

    method BuildNext(n: nat, period: nat) returns (r: Result<Tx, RelayError>)
      requires net.Valid() && period >= 1 && 1 <= n <= net.s.contract.nonce + 1
      modifies net, store
      ensures net.Since(old(net.s))
      ensures r.Ok? ==> r.value.newNonce == n <= |net.s.chain| && GoodTx(net.p, net.s, r.value)
      ensures r.Ok? ==> net.p.Digest(net.s.chain[n - 1]) == Some(TxDigest(net.p, r.value))
      ensures r.Ok? ==> Saved(old(store.stored), store.stored, SubjectOf(net.p, net.s.chain[n - 1]), r.value)
      ensures net.Calm() && n == net.s.contract.nonce + 1 <= |net.s.chain| ==> (r.Ok? <==> Ready(net.p, net.s, n))
    {
      hide Inv, Params.Sound, GoodTx, Ready, Saved;
      NextNonce();
      var att := net.AttestationByNonce(n);
      if att.RpcError? || att.Undecodable? {
        return Err(Fault);
      }
      if att.Nothing? {
        return Err(AttestationNotFound);
      }
      var noOpts := net.Fails(Submission);
      if noOpts {
        return Err(Fault);
      }
      net.ChainFits();
      r := ProcessAttestation(att.att, period);
    }

    /**
     Start: tick until an error, then retry, then tick again. Each entry of `calls` is one call
     of processFunc, with the number of turns it is given; after the last the context is
     cancelled. The waiting accounts hold across all of them. It goes on until the context
     ends, or a call and then all its retries have failed.
     */
    method Start(calls: seq<nat>, retries: nat, period: nat) returns (end: Outcome)
      requires Valid() && period >= 1
      modifies this, net, store
      ensures Valid() && Grows(old(net.s), net.s) && old(sent) <= sent
      ensures isBackup ==> mined <= waits <= mined + 1
      ensures end != UpToDate && old(ends) <= ends && |ends| - |old(ends)| <= |calls|
      ensures end == Stopped ==>
                |ends| - |old(ends)| == |calls| || (ends != old(ends) && ends[|ends| - 1] == Stopped)
      ensures end.Erred? ==>
                && 1 <= retries < |ends| - |old(ends)|
                && ends[|ends| - 1] == end && forall i | |ends| - 1 - retries <= i < |ends| :: ends[i].Erred?
    {
      hide Inv, Params.Sound, GoodTx, Ready, SentInOrder;
      var next := 0;
      while next < |calls|
        invariant 0 <= next <= |calls| && old(ends) <= ends && |ends| == |old(ends)| + next
        invariant Valid() && Grows(old(net.s), net.s) && old(sent) <= sent
        decreases |calls| - next
      {
        end := ProcessFunc(calls[next], period);
        next := next + 1;
        if end == Stopped {
          return;
        }
        if end.Erred? {
          var used;
          end, used := Recover(calls[next..], retries, period);
          next := next + used;
          if end != UpToDate {
            return;
          }
        }
      }
      return Stopped;
    }

    /**
     Retrying processFunc, until it does not fail or has failed as often as there are retries;
     with no retries at all the error is forgotten.
     */
    method Recover(calls: seq<nat>, retries: nat, period: nat) returns (end: Outcome, used: nat)
      requires Valid() && period >= 1
      modifies this, net, store
      ensures Valid() && Grows(old(net.s), net.s) && old(sent) <= sent
      ensures used <= |calls| && used <= retries && old(ends) <= ends && |ends| == |old(ends)| + used
      ensures forall i | |old(ends)| <= i < |ends| - 1 :: ends[i].Erred?
      ensures end == UpToDate ==> retries == 0 || (used > 0 && ends[|ends| - 1] == end)
      ensures end.Erred? ==> used == retries > 0 && ends[|ends| - 1] == end
      ensures end == Stopped ==> used == |calls| || (used > 0 && ends[|ends| - 1] == end)
    {
      hide Inv, Params.Sound, GoodTx, Ready, SentInOrder;
      end, used := UpToDate, 0;
      while used < retries
        invariant used <= |calls| && used <= retries && old(ends) <= ends && |ends| == |old(ends)| + used
        invariant if used == 0 then end == UpToDate else end.Erred? && ends[|ends| - 1] == end
        invariant forall i | |old(ends)| <= i < |ends| :: ends[i].Erred?
        invariant Valid() && Grows(old(net.s), net.s) && old(sent) <= sent
      {
        if used == |calls| {
          return Stopped, used;
        }
        end := ProcessFunc(calls[used], period);
        used := used + 1;
        if !end.Erred? {
          return;
        }
      }
    }
  }
}
