/**
 orchestrator/orchestrator.go, `Process` and what it calls: signing attestations and
 publishing the confirms. Processing one nonce after the other, however often each is
 delivered, is behaviour the protocol allows an honest signer.
 */
module Signing {
  import opened Wrappers
  import opened Hex
  import opened Keys
  import opened Types
  import opened Chain
  import opened Ethereum
  import opened Validators
  import opened Quorum
  import opened Protocol
  import opened Surroundings

  datatype ProcessError = Fault | AttestationNotFound | UnknownAttestationType | CannotSign(cause: EthError)

  /** A confirm that the DHT accepted, and the valset it was checked against, if that was known. */
  datatype Publication = Publication(subject: Subject, previous: Option<Valset>)

  method ValidatorPartOfValset(members: seq<Member>, evmAddr: string) returns (found: bool)
    ensures found <==> exists m | m in members :: m.evmAddress == evmAddr
  {
    for i := 0 to |members|
      invariant forall m | m in members[..i] :: m.evmAddress != evmAddr
    {
      if members[i].evmAddress == evmAddr {
        return true;
      }
    }
    return false;
  }

  predicate IsMember(vs: Valset, evmAddr: string) {
    exists m | m in vs.members :: m.evmAddress == evmAddr
  }

  /**
   A publication is of an attestation after the first, kept by the DHT, and made as a member
   of the valset that is to sign, if that was known.
   */
  ghost predicate Proper(p: Params, s: State, evmAddr: string, pub: Publication) {
    var n := pub.subject.nonce;
    && 2 <= n <= |s.chain|
    && p.Digest(s.chain[n - 1]).Some? && pub.subject == SubjectOf(p, s.chain[n - 1])
    && pub.subject.Key(evmAddr) in s.dht
    && (pub.previous.Some? ==> pub.previous == LastValsetBefore(s.chain, n) && IsMember(pub.previous.value, evmAddr))
  }

  lemma ProperStays(p: Params, s: State, s': State, evmAddr: string, pub: Publication)
    requires Grows(s, s') && Proper(p, s, evmAddr, pub)
    ensures Proper(p, s', evmAddr, pub)
  {
    LastValsetStable(s.chain, s'.chain, pub.subject.nonce - 1);
  }

  /** The accepted confirms are proper, and no two are for the same kind, nonce and digest. */
  ghost predicate InOrder(p: Params, s: State, evmAddr: string, published: seq<Publication>) {
    && (forall pub | pub in published :: Proper(p, s, evmAddr, pub))
    && forall i, j | 0 <= i < j < |published| :: published[i].subject != published[j].subject
  }

  lemma InOrderStays(p: Params, s: State, s': State, evmAddr: string, published: seq<Publication>)
    requires Grows(s, s') && InOrder(p, s, evmAddr, published)
    ensures InOrder(p, s', evmAddr, published)
  {
    forall pub | pub in published ensures Proper(p, s', evmAddr, pub) {
      ProperStays(p, s, s', evmAddr, pub);
    }
  }

  /** A confirm that the DHT did not hold before is not among those already accepted. */
  lemma AbsentIsNew(p: Params, s: State, evmAddr: string, published: seq<Publication>, subject: Subject)
    requires InOrder(p, s, evmAddr, published) && subject.Key(evmAddr) !in s.dht
    ensures forall pub | pub in published :: pub.subject != subject
  {
    forall pub | pub in published ensures pub.subject != subject {
      assert Proper(p, s, evmAddr, pub);
    }
  }

  lemma OneMorePublished(p: Params, s: State, evmAddr: string, published: seq<Publication>, pub: Publication)
    requires InOrder(p, s, evmAddr, published) && Proper(p, s, evmAddr, pub)
    requires forall earlier | earlier in published :: earlier.subject != pub.subject
    ensures InOrder(p, s, evmAddr, published + [pub])
  {
    var longer := published + [pub];
    forall i, j | 0 <= i < j < |longer| ensures longer[i].subject != longer[j].subject {
      assert longer[i] in published;
    }
  }

  /** Somebody with the key of this subject in the DHT has a proper publication of it. */
  lemma AcceptedIsProper(p: Params, s: State, evmAddr: string, att: Attestation, pub: Publication)
    requires 2 <= att.Nonce() <= |s.chain| && s.chain[att.Nonce() - 1] == att
    requires p.Digest(att).Some? && pub.subject == SubjectOf(p, att) && pub.subject.Key(evmAddr) in s.dht
    requires pub.previous.Some? ==>
               pub.previous == LastValsetBefore(s.chain, att.Nonce()) && IsMember(pub.previous.value, evmAddr)
    ensures Proper(p, s, evmAddr, pub)
  {
  }

  /** What an orchestrator builds may be put: it validates, and its signature has been made. */
  lemma BuiltConfirmIsGenuine(p: Params, signed: set<(Address, SignBytes)>, ks: KeyStore,
                              subject: Subject, digest: SignBytes, c: Confirm)
    requires SignsAsItself(p.scheme, ks) && p.codec.RoundTrips()
    requires subject.nonce < UINT64_LIMIT && subject.digest == HashHex(digest)
    requires BuildConfirm(p.scheme, Some(ks), ks.address, digest) == Ok(c)
    requires (ks.address, digest) in signed
    ensures Genuine(p, signed, subject.Key(c.ethAddress), p.codec.encode(c))
  {
    hide Validate, UnforgedConfirm;
    PublishedConfirmValidates(subject.kind, p.scheme, p.codec, ks, subject.nonce, digest);
    OwnConfirmIsUnforged(p, signed, ks, subject, digest, c);
  }

  lemma OwnConfirmIsUnforged(p: Params, signed: set<(Address, SignBytes)>, ks: KeyStore, subject: Subject,
                             digest: SignBytes, c: Confirm)
    requires SignsAsItself(p.scheme, ks) && p.codec.RoundTrips()
    requires subject.nonce < UINT64_LIMIT && subject.digest == HashHex(digest)
    requires BuildConfirm(p.scheme, Some(ks), ks.address, digest) == Ok(c)
    requires (ks.address, digest) in signed
    ensures UnforgedConfirm(p, signed, subject.Key(c.ethAddress), p.codec.encode(c))
  {
    var sig := NewEthereumSignature(p.scheme, Some(ks), digest).value;
    HexAddressLower(p.scheme, ks.address);
    HashHexIsClean(digest);
    ParseInvertsBuild(subject.kind, subject.nonce, c.ethAddress, HashHex(digest));
    DecodeEncode(digest);
    EncodeIsNotStripped(sig);
    DecodeEncode(sig);
    assert p.codec.decode(p.codec.encode(c)) == Some(c);
    assert ks.signHash(ProtectedHash(p.scheme, digest)).Some?;
  }

  /** The valset that is to sign the attestation omits this address. */
  predicate Excused(s: State, evmAddr: string, n: nat) {
    var previous := LastValsetBefore(s.chain, n);
    previous.Some? && !IsMember(previous.value, evmAddr)
  }

  /** The confirm of this address for the attestation is in the DHT. */
  predicate Confirmed(p: Params, s: State, evmAddr: string, n: nat) {
    && 2 <= n <= |s.chain| && p.Digest(s.chain[n - 1]).Some?
    && SubjectOf(p, s.chain[n - 1]).Key(evmAddr) in s.dht
  }

  /** There is nothing left to do for this address about nonce n. */
  predicate Settled(p: Params, s: State, evmAddr: string, n: nat) {
    n == 1 || (2 <= n <= |s.chain| && Excused(s, evmAddr, n)) || Confirmed(p, s, evmAddr, n)
  }

  lemma SettledStays(p: Params, s: State, s': State, evmAddr: string, n: nat)
    requires Grows(s, s') && Settled(p, s, evmAddr, n)
    ensures Settled(p, s', evmAddr, n)
  {
    if 2 <= n <= |s.chain| {
      LastValsetStable(s.chain, s'.chain, n - 1);
    }
  }

  /** The confirm found under the address is spelled as a valset would have to, so that it counts for a member. */
  ghost predicate Counts(p: Params, s: State, evmAddr: string, subject: Subject) {
    forall m: Member | m.evmAddress == evmAddr :: Exact(FullLookup(p, s.dht), subject, m)
  }

  /** The account can make the signature of the attestation. */
  predicate CanSign(p: Params, ks: KeyStore, att: Attestation) {
    p.Digest(att).Some? && ks.signHash(ProtectedHash(p.scheme, p.Digest(att).value)).Some?
  }

  class Orchestrator {
    const net: Network
    const keyStore: KeyStore
    ghost var published: seq<Publication>
    ghost var asked: seq<nat>  // the nonces Process was called with

    function EvmAddress(): string {
      HexAddress(net.p.scheme, keyStore.address)
    }

    ghost predicate Valid()
      reads this, net
    {
      && net.Valid() && net.p.codec.RoundTrips() && SignsAsItself(net.p.scheme, keyStore)
      && InOrder(net.p, net.s, EvmAddress(), published)
    }

    constructor (net: Network, keyStore: KeyStore)
      requires net.Valid() && net.p.codec.RoundTrips() && SignsAsItself(net.p.scheme, keyStore)
      ensures Valid() && published == [] && this.net == net && this.keyStore == keyStore
    {
      this.net := net;
      this.keyStore := keyStore;
      published, asked := [], [];
    }

    /**
     Process. It publishes at most one confirm, which counts; none for nonce 1 and none for an
     account that the known previous valset omits; and without an error the nonce is settled.
     It needs no previous valset to succeed. If nobody interferes, then it publishes exactly
     if the nonce was not settled before.
     */
    method Process(nonce: nat) returns (err: Option<ProcessError>)
      requires Valid()
      modifies this, net
      ensures asked == old(asked) + [nonce]
      ensures Valid() && Grows(old(net.s), net.s)
      ensures published == old(published)
           || (nonce >= 2 && exists pub: Publication :: pub.subject.nonce == nonce && published == old(published) + [pub])
      ensures err.Some? ==> published == old(published)
      ensures err.None? ==> Settled(net.p, net.s, EvmAddress(), nonce)
      ensures published != old(published) ==> Counts(net.p, net.s, EvmAddress(), published[|old(published)|].subject)
      ensures AttestationQuery in net.sure && nonce == 1 ==> err.None?
      ensures var chain := old(net.s.chain);
              2 <= nonce <= |chain| && CanSign(net.p, keyStore, chain[nonce - 1])
              && {AttestationQuery, CommitmentQuery, DhtConfirms, DhtPut} <= net.sure ==>
                && err.None?
                && (net.quiet && ValsetQuery in net.sure ==>
                      (published == old(published) <==> Settled(net.p, old(net.s), EvmAddress(), nonce)))
    {
      hide Inv, Params.Sound, InOrder, Counts, CanSign, Confirmed;
      asked := asked + [nonce];
      net.ChainFits();
      ghost var was := net.s;
      var att := net.AttestationByNonce(nonce);
      if !att.Got? {
        InOrderStays(net.p, was, net.s, EvmAddress(), published);
        return Some(if att.Nothing? then AttestationNotFound else Fault);
      }
      if nonce == 1 {
        InOrderStays(net.p, was, net.s, EvmAddress(), published);
        return None;
      }
      var previous := net.LastValsetBeforeNonce(att.att.Nonce());
      if previous.Some? {
        var member := ValidatorPartOfValset(previous.value.members, EvmAddress());
        if !member {
          InOrderStays(net.p, was, net.s, EvmAddress(), published);
          return None;
        }
        ghost var answered := net.s;
        net.ProvideLatestValset(ToLatestValset(previous.value));
        LastValsetStable(answered.chain, net.s.chain, nonce - 1);
      }
      InOrderStays(net.p, was, net.s, EvmAddress(), published);
      err := SignAndPublish(att.att, previous);
    }

    /** The second half of Process: look for an earlier confirm, and otherwise sign and publish. */
    method SignAndPublish(att: Attestation, ghost previous: Option<Valset>) returns (err: Option<ProcessError>)
      requires Valid() && 2 <= att.Nonce() <= |net.s.chain| && net.s.chain[att.Nonce() - 1] == att
      requires previous.Some? ==>
                 previous == LastValsetBefore(net.s.chain, att.Nonce()) && IsMember(previous.value, EvmAddress())
      modifies this, net
      ensures asked == old(asked)
      ensures Valid() && Grows(old(net.s), net.s)
      ensures published == old(published)
           || exists pub: Publication :: pub.subject.nonce == att.Nonce() && published == old(published) + [pub]
      ensures err.Some? ==> published == old(published)
      ensures err.None? ==> Confirmed(net.p, net.s, EvmAddress(), att.Nonce())
      ensures published != old(published) ==> Counts(net.p, net.s, EvmAddress(), published[|old(published)|].subject)
      ensures CanSign(net.p, keyStore, att) && {CommitmentQuery, DhtConfirms, DhtPut} <= net.sure ==>
                && err.None?
                && (net.quiet ==>
                      (published == old(published) <==> Confirmed(net.p, old(net.s), EvmAddress(), att.Nonce())))
    {
      hide Inv, Params.Sound, Counts, InOrder;
      ghost var was := net.s;
      if att.UnknownAtt? {
        return Some(UnknownAttestationType);
      }
      if att.CommitmentAtt? {
        var commitment := net.Commitment(att.beginBlock, att.endBlock);
        if commitment.None? {
          InOrderStays(net.p, was, net.s, EvmAddress(), published);
          return Some(Fault);
        }
      }
      var digest := net.p.Digest(att).value;
      var subject := SubjectOf(net.p, att);
      var existing := net.GetConfirm(subject.Key(EvmAddress()));
      InOrderStays(net.p, was, net.s, EvmAddress(), published);
      if existing.None? {
        return Some(Fault);
      }
      if existing.value.Some? {
        return None;
      }
      ghost var absent := net.s;
      AbsentIsNew(net.p, absent, EvmAddress(), published, subject);
      if att.ValsetAtt? {
        net.ProvideLatestValset(ToLatestValset(att.valset));
        InOrderStays(net.p, absent, net.s, EvmAddress(), published);
      }
      LastValsetStable(was.chain, net.s.chain, att.Nonce() - 1);
      err := Publish(att, subject, digest, previous);
    }

    /** What is left of ProcessValsetEvent and ProcessDataCommitmentEvent: sign, build the confirm, put it. */
    method Publish(att: Attestation, subject: Subject, digest: SignBytes, ghost previous: Option<Valset>)
      returns (err: Option<ProcessError>)
      requires Valid() && 2 <= att.Nonce() <= |net.s.chain| && net.s.chain[att.Nonce() - 1] == att
      requires net.p.Digest(att) == Some(digest) && subject == SubjectOf(net.p, att)
      requires previous.Some? ==>
                 previous == LastValsetBefore(net.s.chain, att.Nonce()) && IsMember(previous.value, EvmAddress())
      requires forall pub | pub in published :: pub.subject != subject
      modifies this, net
      ensures asked == old(asked)
      ensures Valid() && Grows(old(net.s), net.s)
      ensures published == old(published) + if err.Some? then [] else [Publication(subject, previous)]
      ensures err.None? ==> Confirmed(net.p, net.s, EvmAddress(), att.Nonce())
      ensures err.None? ==> Counts(net.p, net.s, EvmAddress(), subject)
      ensures CanSign(net.p, keyStore, att) && DhtPut in net.sure ==> err.None?
    {
      hide Inv, Params.Sound, Genuine;
      ghost var was := net.s;
      net.ChainFits();
      var confirm := BuildConfirm(net.p.scheme, Some(keyStore), keyStore.address, digest);
      if confirm.Err? {
        return Some(CannotSign(confirm.error));
      }
      assert AttestedAt(net.p, net.s.chain, digest, att.Nonce());
      net.Signed(keyStore.address, digest);
      BuiltConfirmIsGenuine(net.p, net.s.signed, keyStore, subject, digest, confirm.value);
      var failed := net.PutConfirm(subject.Key(confirm.value.ethAddress), net.p.codec.encode(confirm.value));
      InOrderStays(net.p, was, net.s, EvmAddress(), published);
      if failed {
        return Some(Fault);
      }
      PutCounts(subject, confirm.value);
      LastValsetStable(was.chain, net.s.chain, att.Nonce() - 1);
      AcceptedIsProper(net.p, net.s, EvmAddress(), att, Publication(subject, previous));
      OneMorePublished(net.p, net.s, EvmAddress(), published, Publication(subject, previous));
      published := published + [Publication(subject, previous)];
      return None;
    }

    /** What was put under one's own address, with that address, counts. */
    lemma PutCounts(subject: Subject, c: Confirm)
      requires net.p.codec.RoundTrips() && c.ethAddress == EvmAddress()
      requires subject.Key(EvmAddress()) in net.s.dht && net.s.dht[subject.Key(EvmAddress())] == net.p.codec.encode(c)
      ensures Counts(net.p, net.s, EvmAddress(), subject)
    {
    }
  }
}
