/**
 What the relayer talks to. Everybody else keeps acting between any two of its operations.
 */
module Surroundings {
  import opened Wrappers
  import opened Hex
  import opened Types
  import opened Chain
  import opened History
  import opened Ethereum
  import opened Quorum
  import opened Protocol
  import Validators

  /** What may fail. */
  datatype Operation =
    | ContractQuery
    | LatestNonceQuery
    | EarliestNonceQuery
    | AttestationQuery
    | ValsetQuery
    | CommitmentQuery
    | ArchiveQuery
    | DhtConfirms
    | DhtPut
    | DhtValset
    | Submission
    | Storage

  /**
   The rest of the world: the chain's node, the DHT and the contract. Every query first lets
   others take any number of steps, unless the network is quiet; it then answers truthfully
   or fails, unless it is sure.
   */
  class Network {
    const p: Params
    const quiet: bool
    const sure: set<Operation>
    var s: State
    ghost var met: seq<PollEvent>  // what the last poll of the DHT met

    ghost predicate Valid()
      reads this
    {
      p.Sound() && Inv(p, s)
    }

    lemma ChainFits()
      requires Valid()
      ensures 1 <= |s.chain| < UINT64_LIMIT
    {
    }

    /** Nobody else acts and nothing fails. */
    ghost predicate Calm() {
      quiet && forall op: Operation :: op in sure
    }

    /** The last valset before a nonce can be had from the state, from the DHT, or from an archive. */
    predicate FindsValset() {
      || ValsetQuery in sure
      || (quiet && {DhtValset, ContractQuery} <= sure)
      || ArchiveQuery in sure
    }

    /** What may have happened since `was`. */
    ghost predicate Since(was: State)
      reads this
    {
      Valid() && Grows(was, s) && (quiet ==> s == was)
    }

    /** Any state that keeps the invariant, such as that of a contract just deployed. */
    constructor (p: Params, s: State, quiet: bool, sure: set<Operation>)
      requires p.Sound() && Inv(p, s)
      ensures Valid() && this.p == p && this.s == s && this.quiet == quiet && this.sure == sure
    {
      this.p := p;
      this.quiet := quiet;
      this.sure := sure;
      this.s := s;
      met := [];
    }

    method Others()
      requires Valid()
      modifies this
      ensures Since(old(s))
    {
      if quiet {
        return;
      }
      var steps: seq<Step> := *;
      for i := 0 to |steps|
        invariant Valid() && Grows(old(s), s)
      {
        if Enabled(p, s, steps[i]) {
          StepKeepsInv(p, s, steps[i]);
          s := Do(p, s, steps[i]);
        }
      }
    }

    method Fails(op: Operation) returns (failed: bool)
      requires Valid()
      modifies this
      ensures Since(old(s)) && (op in sure ==> !failed)
    {
      Others();
      failed := *;
      failed := failed && op !in sure;
    }

    method LastEventNonce() returns (r: Option<nat>)
      requires Valid()
      modifies this
      ensures Since(old(s)) && (ContractQuery in sure ==> r.Some?)
      ensures r.Some? ==> r.value == s.contract.nonce
    {
      var failed := Fails(ContractQuery);
      return if failed then None else Some(s.contract.nonce);
    }

    method Checkpoint() returns (r: Option<SignBytes>)
      requires Valid()
      modifies this
      ensures Since(old(s)) && (ContractQuery in sure ==> r.Some?)
      ensures r.Some? ==> r.value == s.contract.checkpoint
    {
      var failed := Fails(ContractQuery);
      return if failed then None else Some(s.contract.checkpoint);
    }

    method LatestAttestationNonce() returns (r: Option<nat>)
      requires Valid()
      modifies this
      ensures Since(old(s)) && (LatestNonceQuery in sure ==> r.Some?)
      ensures r.Some? ==> r.value == |s.chain|
    {
      var failed := Fails(LatestNonceQuery);
      return if failed then None else Some(|s.chain|);
    }

    /** A reply may also come without an attestation in it. */
    method AttestationByNonce(n: nat) returns (r: Response)
      requires Valid()
      modifies this
      ensures Since(old(s))
      ensures r.Got? ==> 1 <= n <= |s.chain| && r.att == s.chain[n - 1] && r.att.Nonce() == n
      ensures AttestationQuery in sure && 1 <= n <= |s.chain| ==> r.Got?
    {
      var failed := Fails(AttestationQuery);
      var empty := Fails(AttestationQuery);
      if failed {
        return RpcError;
      }
      if empty || n < 1 || n > |s.chain| {
        return Nothing;
      }
      return Got(s.chain[n - 1]);
    }

    method LastValsetBeforeNonce(n: nat) returns (r: Option<Valset>)
      requires Valid()
      modifies this
      ensures Since(old(s))
      ensures r.Some? ==> r == LastValsetBefore(s.chain, n)
      ensures ValsetQuery in sure ==> r == LastValsetBefore(s.chain, n)
    {
      var failed := Fails(ValsetQuery);
      return if failed then None else LastValsetBefore(s.chain, n);
    }

    method Commitment(beginBlock: nat, endBlock: nat) returns (r: Option<Hash>)
      requires Valid()
      modifies this
      ensures Since(old(s)) && (CommitmentQuery in sure ==> r.Some?)
      ensures r.Some? ==> r.value == p.commitment(beginBlock, endBlock)
    {
      var failed := Fails(CommitmentQuery);
      return if failed then None else Some(p.commitment(beginBlock, endBlock));
    }

    /** Nothing authenticates what the DHT holds as the latest valset; a sure one holds the contract's. */
    method LatestValsetFromDht() returns (r: Option<LatestValset>)
      requires Valid()
      modifies this
      ensures Since(old(s))
      ensures DhtValset in sure ==> r.Some? && p.valsetDigest(r.value.nonce, r.value.members) == s.contract.checkpoint
    {
      Others();
      if DhtValset in sure {
        return Some(ToLatestValset(LastValsetAtMost(s.chain, s.contract.nonce).value));
      }
      r := *;
    }

    /**
     An archive node's answers, as far as it answers; the height is the node's current one. A
     sure one has every attestation at the heights searched, and time enough to search them.
     */
    method ArchiveAnswers(n: nat, period: nat) returns (archive: Archive, height: nat, patience: nat)
      requires Valid() && period >= 1
      modifies this
      ensures Since(old(s)) && ArchiveOf(archive, s.chain)
      ensures ArchiveQuery in sure ==>
                && patience >= WalkCost(archive, Predecessor(n), height, period)
                && forall m | 1 <= m <= |s.chain| :: Strided(archive, m, height, period).Ok?
    {
      Others();
      var silent: set<(nat, nat)> := *;
      if ArchiveQuery in sure {
        silent := {};
      }
      var chain := s.chain;
      archive := (n, h) => if (n, h) in silent || n < 1 || n > |chain| then RpcError else Got(chain[n - 1]);
      height :| height >= 0;
      patience :| patience >= 0;
      if ArchiveQuery in sure {
        height := height + 1;
        patience := patience + WalkCost(archive, Predecessor(n), height, period);
      }
    }

    /** What polling the DHT for the confirms of a digest meets. */
    method ConfirmLookups(subject: Subject, digest: SignBytes) returns (first: Lookup, events: seq<PollEvent>)
      requires Valid() && subject.digest == HashHex(digest) && subject.nonce < UINT64_LIMIT
      modifies this
      ensures Since(old(s))
      ensures Backed(p, s.signed, first, subject, digest)
      ensures forall e | e in events && e.Tick? :: Backed(p, s.signed, e.lookup, subject, digest)
      ensures met == [Tick(first)] + events
      ensures DhtConfirms in sure && quiet ==>
                first == FullLookup(p, s.dht) && forall e | e in events && e.Tick? :: e.lookup == first
    {
      first := ConfirmLookup(subject, digest);
      events := [];
      var script: seq<PollEvent> := *;
      for i := 0 to |script|
        invariant Since(old(s)) && Backed(p, s.signed, first, subject, digest)
        invariant forall e | e in events && e.Tick? :: Backed(p, s.signed, e.lookup, subject, digest)
        invariant DhtConfirms in sure && quiet ==> forall e | e in events && e.Tick? :: e.lookup == first
      {
        var next := script[i];
        if next.Tick? {
          var lookup := ConfirmLookup(subject, digest);
          next := Tick(lookup);
        }
        events := events + [next];
      }
      met := [Tick(first)] + events;
    }

    method ConfirmLookup(subject: Subject, digest: SignBytes) returns (lookup: Lookup)
      requires Valid() && subject.digest == HashHex(digest) && subject.nonce < UINT64_LIMIT
      modifies this
      ensures Since(old(s)) && Backed(p, s.signed, lookup, subject, digest)
      ensures DhtConfirms in sure ==> lookup == FullLookup(p, s.dht)
    {
      Others();
      var unreachable: set<string> := *;
      var dht, codec := s.dht, p.codec;
      lookup := if DhtConfirms in sure then FullLookup(p, dht) else key => LookupIn(dht, codec, unreachable, key);
      forall addr | IsHexAddress(addr) && lookup(subject.Key(addr)).Found?
        ensures var c := lookup(subject.Key(addr)).confirm;
                && Lower(c.ethAddress) == Lower(addr)
                && Validators.SignedBy(p.scheme, AddressOf(addr), digest, c.signature)
                && (AddressOf(addr), digest) in s.signed
      {
        DhtEntryIsBacked(p, s, subject.kind, subject.nonce, addr, digest);
      }
    }

    /** One confirm; the outer None is a failed lookup, the inner one a missing confirm. */
    method GetConfirm(key: string) returns (r: Option<Option<Confirm>>)
      requires Valid()
      modifies this
      ensures Since(old(s))
      ensures DhtConfirms in sure ==> r.Some?
      ensures r.Some? ==> (r.value.Some? <==> key in s.dht)
    {
      var failed := Fails(DhtConfirms);
      if failed {
        return None;
      }
      if key !in s.dht {
        return Some(None);
      }
      GenuineDecodes(p, s, key);
      var decoded := p.codec.decode(s.dht[key]);
      return if decoded.Some? then Some(decoded) else None;
    }

    /** Offering the latest valset to the DHT; whether that works is not looked at. */
    method ProvideLatestValset(lv: LatestValset)
      requires Valid()
      modifies this
      ensures Since(old(s))
    {
      Others();
    }

    /** Making a signature, which an honest account does only for an attestation of the chain. */
    method Signed(signer: Address, digest: SignBytes)
      requires Valid() && (signer in p.honest ==> IsAttested(p, s.chain, digest))
      modifies this
      ensures Valid() && Grows(old(s), s) && s == Do(p, old(s), Sign(signer, digest))
    {
      StepKeepsInv(p, s, Sign(signer, digest));
      s := Do(p, s, Sign(signer, digest));
    }

    /** Putting a confirm; it may fail for lack of peers. */
    method PutConfirm(key: string, value: seq<byte>) returns (failed: bool)
      requires Valid() && Genuine(p, s.signed, key, value)
      modifies this
      ensures Valid() && Grows(old(s), s)
      ensures s == if failed then old(s) else Do(p, old(s), Put(key, value))
      ensures DhtPut in sure ==> !failed
    {
      failed := *;
      failed := failed && DhtPut !in sure;
      if !failed {
        StepKeepsInv(p, s, Put(key, value));
        s := Do(p, s, Put(key, value));
      }
    }

    /**
     The wait for a submitted transaction. Ending without an error means it was mined; the
     receipt's status is not looked at, so it may have been reverted.
     */
    method Await(tx: Tx) returns (failed: bool)
      requires Valid()
      modifies this
      ensures Valid() && Grows(old(s), s)
      ensures Submission in sure ==> !failed
      ensures quiet && !failed ==> s == if Enabled(p, old(s), Execute(tx)) then Do(p, old(s), Execute(tx)) else old(s)
      ensures quiet && failed ==> s == old(s)
    {
      failed := Fails(Submission);
      if failed {
        return;
      }
      if Enabled(p, s, Execute(tx)) {
        StepKeepsInv(p, s, Execute(tx));
        s := Do(p, s, Execute(tx));
      }
      Others();
    }
  }

  /** A pass over the DHT in which every key can be reached. */
  function FullLookup(p: Params, dht: map<string, seq<byte>>): Lookup {
    key => LookupIn(dht, p.codec, {}, key)
  }

  /** What is in the DHT validates, so it decodes. */
  lemma GenuineDecodes(p: Params, s: State, key: string)
    requires GenuineDht(p, s) && key in s.dht
    ensures p.codec.decode(s.dht[key]).Some?
  {
    hide UnforgedConfirm;
    assert Genuine(p, s.signed, key, s.dht[key]);
  }

  function LookupIn(dht: map<string, seq<byte>>, codec: Validators.Codec<Confirm>, unreachable: set<string>, key: string)
    : Answer
  {
    if key in unreachable then Failed
    else if key !in dht then Answer.NotFound
    else match codec.decode(dht[key]) case Some(c) => Found(c) case None => Failed
  }
}
