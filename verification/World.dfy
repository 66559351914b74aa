/**
 The assumptions of Protocol are met: parameters with collision-free sign bytes, and a world
 with one validator in which an attestation is issued, signed, published and relayed.
 */
module World {
  import opened Wrappers
  import opened Hex
  import opened Keys
  import opened Types
  import opened Chain
  import opened Ethereum
  import opened Validators
  import opened Signature
  import opened Quorum
  import opened Protocol
  import opened Surroundings
  import opened Signing
  import Relayer

  // --- an injective encoding ---

  /** Each number as that many ones and a zero. */
  function Unary(ns: seq<nat>): seq<byte>
    decreases |ns|, if ns == [] then 0 else ns[0]
  {
    if ns == [] then []
    else if ns[0] == 0 then [0] + Unary(ns[1..])
    else [1] + Unary([ns[0] - 1] + ns[1..])
  }

  lemma {:induction false} UnaryInjective(a: seq<nat>, b: seq<nat>)
    requires Unary(a) == Unary(b)
    ensures a == b
    decreases |a|, if a == [] then 0 else a[0]
  {
    if a != [] && b != [] {
      assert Unary(a)[0] == Unary(b)[0];
      if a[0] == 0 {
        assert Unary(a)[1..] == Unary(a[1..]) && Unary(b)[1..] == Unary(b[1..]);
        UnaryInjective(a[1..], b[1..]);
        assert a == [a[0]] + a[1..] && b == [b[0]] + b[1..];
      } else {
        var a', b' := [a[0] - 1] + a[1..], [b[0] - 1] + b[1..];
        assert Unary(a)[1..] == Unary(a') && Unary(b)[1..] == Unary(b');
        UnaryInjective(a', b');
        assert a[1..] == a'[1..] && b[1..] == b'[1..];
        assert a == [a'[0] + 1] + a'[1..] && b == [b'[0] + 1] + b'[1..];
      }
    }
  }

  function CharsOf(s: string): (ns: seq<nat>)
    ensures |ns| == |s|
  {
    seq(|s|, i requires 0 <= i < |s| => s[i] as nat)
  }

  lemma CharsInjective(s: string, t: string)
    requires CharsOf(s) == CharsOf(t)
    ensures s == t
  {
    forall i | 0 <= i < |s| ensures s[i] == t[i] {
      assert CharsOf(s)[i] == CharsOf(t)[i];
    }
  }

  /** A text with its length in front can be told from what follows it. */
  function TextThen(s: string, rest: seq<nat>): seq<nat> {
    [|s|] + CharsOf(s) + rest
  }

  lemma TextThenInjective(s: string, r: seq<nat>, t: string, q: seq<nat>)
    requires TextThen(s, r) == TextThen(t, q)
    ensures s == t && r == q
  {
    var x, y := TextThen(s, r), TextThen(t, q);
    assert x[0] == |s| && y[0] == |t|;
    assert x[1..1 + |s|] == CharsOf(s) && y[1..1 + |t|] == CharsOf(t);
    assert x[1 + |s|..] == r && y[1 + |t|..] == q;
    CharsInjective(s, t);
  }

  function MembersCode(members: seq<Member>): seq<nat> {
    if members == [] then [] else [members[0].power] + TextThen(members[0].evmAddress, MembersCode(members[1..]))
  }

  lemma {:induction false} MembersCodeInjective(a: seq<Member>, b: seq<Member>)
    requires MembersCode(a) == MembersCode(b)
    ensures a == b
  {
    if a != [] && b != [] {
      var ra, rb := MembersCode(a[1..]), MembersCode(b[1..]);
      assert MembersCode(a)[1..] == TextThen(a[0].evmAddress, ra) && MembersCode(b)[1..] == TextThen(b[0].evmAddress, rb);
      assert MembersCode(a)[0] == a[0].power && MembersCode(b)[0] == b[0].power;
      TextThenInjective(a[0].evmAddress, ra, b[0].evmAddress, rb);
      MembersCodeInjective(a[1..], b[1..]);
      assert a == [a[0]] + a[1..] && b == [b[0]] + b[1..];
    }
  }

  function ValsetBytes(nonce: nat, members: seq<Member>): SignBytes {
    var code := [0, nonce] + MembersCode(members);
    assert Unary(code)[0] == 0;
    Unary(code)
  }

  function RootBytes(nonce: nat, root: Hash): SignBytes {
    var code: seq<nat> := [1, nonce] + root;
    assert Unary(code)[0] == 1;
    Unary(code)
  }

  lemma ValsetBytesInjective(n1: nat, m1: seq<Member>, n2: nat, m2: seq<Member>)
    requires ValsetBytes(n1, m1) == ValsetBytes(n2, m2)
    ensures n1 == n2 && m1 == m2
  {
    var x, y := [0, n1] + MembersCode(m1), [0, n2] + MembersCode(m2);
    UnaryInjective(x, y);
    assert x[1] == y[1] && x[2..] == y[2..];
    MembersCodeInjective(m1, m2);
  }

  lemma RootBytesInjective(n1: nat, r1: Hash, n2: nat, r2: Hash)
    requires RootBytes(n1, r1) == RootBytes(n2, r2)
    ensures n1 == n2 && r1 == r2
  {
    var x: seq<nat>, y: seq<nat> := [1, n1] + r1, [1, n2] + r2;
    UnaryInjective(x, y);
    assert x[1] == y[1] && x[2..] == r1 && y[2..] == r2;
  }

  function EncodeConfirm(c: Confirm): seq<byte> {
    Unary(TextThen(c.ethAddress, TextThen(c.signature, [])))
  }

  ghost function DecodeConfirm(bs: seq<byte>): Option<Confirm> {
    if c :| EncodeConfirm(c) == bs then Some(c) else None
  }
  lemma ConfirmRoundTrip(c: Confirm)
    ensures DecodeConfirm(EncodeConfirm(c)) == Some(c)
  {
    var d := DecodeConfirm(EncodeConfirm(c)).value;
    var x, y := TextThen(c.signature, []), TextThen(d.signature, []);
    UnaryInjective(TextThen(c.ethAddress, x), TextThen(d.ethAddress, y));
    TextThenInjective(c.ethAddress, x, d.ethAddress, y);
    TextThenInjective(c.signature, [], d.signature, []);
  }

  // --- one validator, one valset, one commitment ---

  /** The validator's account, its signature of the commitment, and the tuple root committed to. */
  datatype Cast = Cast(account: Address, sig: seq<byte>, root: Hash) {
    /** The signature recovers to the account. */
    predicate Signs() {
      |sig| == 65 && sig[..20] == account
    }

    /** A signature names its account in its first 20 bytes. */
    function TheScheme(): Scheme {
      Scheme((bs: seq<byte>) => root, (h: Hash, sig: seq<byte>) => if |sig| == 65 then Some(sig[..20]) else None,
             (a: Address, i: nat) => false)
    }

    ghost function TheParams(): Params {
      Params(ValsetBytes, RootBytes, (b: nat, e: nat) => root, TwoThirds, TheScheme(),
             Codec(EncodeConfirm, (bs: seq<byte>) => DecodeConfirm(bs)), {account})
    }

    function Keys(): KeyStore {
      KeyStore(account, (h: Hash) => Some(sig))
    }

    function EvmAddress(): string {
      HexAddress(TheScheme(), account)
    }

    function Members(): seq<Member> {
      [Member(1, EvmAddress())]
    }

    function Digest(): SignBytes {
      RootBytes(2, root)
    }

    function TheSubject(): Subject {
      Subject(CommitmentConfirms, 2, HashHex(Digest()))
    }

    function Start(): State {
      State([ValsetAtt(Valset(1, Members(), 1, 0)), CommitmentAtt(2, 1, 2)], {}, map[],
            Contract(1, ValsetBytes(1, Members())))
    }

    function Value(): seq<byte> {
      EncodeConfirm(Confirm(EvmAddress(), Encode(sig)))
    }

    /** The validator signs the commitment and publishes its confirm. */
    function Publishing(): seq<Step> {
      [Sign(account, Digest()), Put(TheSubject().Key(EvmAddress()), Value())]
    }

    function Published(): State {
      State(Start().chain, {(account, Digest())}, map[TheSubject().Key(EvmAddress()) := Value()], Start().contract)
    }
  }

  function TwoThirds(members: seq<Member>): nat {
    2 * Total(members) / 3 + 1
  }

  lemma AssumptionsAreMet(c: Cast)
    requires c.Signs()
    ensures c.TheParams().Sound() && c.TheParams().codec.RoundTrips() && SignsAsItself(c.TheScheme(), c.Keys())
  {
    var p := c.TheParams();
    forall n1, m1, n2, m2 | p.valsetDigest(n1, m1) == p.valsetDigest(n2, m2) ensures n1 == n2 && m1 == m2 {
      ValsetBytesInjective(n1, m1, n2, m2);
    }
    forall n1, r1, n2, r2 | p.rootDigest(n1, r1) == p.rootDigest(n2, r2) ensures n1 == n2 && r1 == r2 {
      RootBytesInjective(n1, r1, n2, r2);
    }
    forall n1, m1, n2, r2 ensures p.valsetDigest(n1, m1) != p.rootDigest(n2, r2) {
      assert ValsetBytes(n1, m1)[0] == 0 && RootBytes(n2, r2)[0] == 1;
    }
    forall c ensures p.codec.decode(p.codec.encode(c)) == Some(c) {
      ConfirmRoundTrip(c);
    }
    forall h: Hash, rs: seq<byte>, v: byte | |rs| == 64 && v in {27, 28} && p.scheme.recover(h, rs + [v]).Some?
      ensures p.scheme.recover(h, rs + [v]) == p.scheme.recover(h, rs + [v - 27])
    {
      assert (rs + [v])[..20] == rs[..20] == (rs + [v - 27])[..20];
    }
  }

  lemma StartIsDeployed(c: Cast)
    ensures Deployed(c.TheParams(), c.Start(), Valset(1, c.Members(), 1, 0), 1)
  {
    hide HexAddress, AddressOf, IsHexAddress, Lower, Unary;
    HexAddressLower(c.TheScheme(), c.account);
    AddressRoundTrip(c.TheScheme(), c.account);
    var p, members, untrusted := c.TheParams(), c.Members(), Untrusted(c.TheParams(), c.Members());
    assert members[0] == Member(1, c.EvmAddress()) && !untrusted[0];
    assert members[..0] == [] && untrusted[..0] == [];
    assert Total(members[..0]) == 0 && PowerOf(members[..0], untrusted[..0]) == 0;
    assert Total(members) == 1 && PowerOf(members, untrusted) == 0;
    assert ProperValset(p, members);
    var chain := c.Start().chain;
    assert ProperChain(p, chain);
    assert LastValsetAtMost(chain, 1) == Some(Valset(1, members, 1, 0));
  }

  lemma StartKeepsInv(c: Cast)
    requires c.Signs()
    ensures c.TheParams().Sound() && Inv(c.TheParams(), c.Start())
  {
    hide Params.Sound, ProperChain;
    AssumptionsAreMet(c);
    StartIsDeployed(c);
  }

  lemma CommitmentIsAttested(c: Cast)
    ensures Enabled(c.TheParams(), c.Start(), c.Publishing()[0])
  {
    assert AttestedAt(c.TheParams(), c.Start().chain, c.Digest(), 2);
  }

  lemma ConfirmIsGenuine(c: Cast, signed: set<(Address, SignBytes)>)
    requires c.Signs() && (c.account, c.Digest()) in signed
    ensures Genuine(c.TheParams(), signed, c.TheSubject().Key(c.EvmAddress()), c.Value())
  {
    hide Genuine, Params.Sound;
    AssumptionsAreMet(c);
    BuiltConfirmIsGenuine(c.TheParams(), signed, c.Keys(), c.TheSubject(), c.Digest(), Confirm(c.EvmAddress(), Encode(c.sig)));
  }

  lemma TwoSteps(p: Params, s: State, steps: seq<Step>)
    requires |steps| == 2 && Enabled(p, s, steps[0]) && Enabled(p, Do(p, s, steps[0]), steps[1])
    ensures Legal(p, s, steps) && Run(p, s, steps) == Do(p, Do(p, s, steps[0]), steps[1])
  {
    var s1, rest := Do(p, s, steps[0]), steps[1..];
    assert rest[0] == steps[1] && rest[1..] == [];
    assert Legal(p, Do(p, s1, rest[0]), rest[1..]) && Run(p, Do(p, s1, rest[0]), rest[1..]) == Do(p, s1, steps[1]);
    assert Legal(p, s1, rest) && Run(p, s1, rest) == Do(p, s1, steps[1]);
  }

  /** From the deployment, signing the commitment and publishing the confirm are steps the protocol allows. */
  lemma PublishingIsLegal(c: Cast)
    requires c.Signs()
    ensures c.TheParams().Sound() && Inv(c.TheParams(), c.Start()) && Legal(c.TheParams(), c.Start(), c.Publishing())
    ensures Run(c.TheParams(), c.Start(), c.Publishing()) == c.Published() && Inv(c.TheParams(), c.Published())
  {
    hide Inv, Params.Sound, Genuine, Legal, Run, IsAttested;
    var p, s, steps := c.TheParams(), c.Start(), c.Publishing();
    StartKeepsInv(c);
    CommitmentIsAttested(c);
    var signed := Do(p, s, steps[0]);
    ConfirmIsGenuine(c, signed.signed);
    assert Enabled(p, signed, steps[1]);
    assert Do(p, signed, steps[1]) == c.Published();
    TwoSteps(p, s, steps);
    RunsKeepInv(p, s, steps);
  }

  /** What the published DHT answers for the one member, and what the relayer collects from it. */
  lemma OneConfirmIsThere(c: Cast)
    requires c.Signs()
    ensures var lookup := FullLookup(c.TheParams(), c.Published().dht);
            && lookup(c.TheSubject().Key(c.EvmAddress())) == Found(Confirm(c.EvmAddress(), Encode(c.sig)))
            && PowerOf(c.Members(), ExactMarks(lookup, c.TheSubject(), c.Members())) == 1 == TwoThirds(c.Members())
  {
    ConfirmRoundTrip(Confirm(c.EvmAddress(), Encode(c.sig)));
    var marks := ExactMarks(FullLookup(c.TheParams(), c.Published().dht), c.TheSubject(), c.Members());
    assert c.Members()[..0] == [] && marks[..0] == [] && marks[0];
    assert Total(c.Members()) == 1;
  }

  /**
   The published confirm is a quorum, and one poll of the DHT succeeds; but the commitment
   reaches the contract exactly when the one signature is acceptable to SigToVRS.
   */
  lemma RelayedIff(c: Cast)
    requires c.Signs()
    ensures var p, s, members := c.TheParams(), c.Published(), c.Members();
            var r := Poll([Tick(FullLookup(p, s.dht))], c.TheSubject(), members, p.threshold(members));
            && r.Ok?
            && ((exists slots :: Aligned(slots, SigsMap(r.value), members)) <==> Acceptable(c.sig))
            && (forall slots | Aligned(slots, SigsMap(r.value), members) ::
                  var tx := Tx(2, NewRoot(c.root), 1, members, EthValidators(members), slots);
                  Enabled(p, s, Execute(tx)) && Do(p, s, Execute(tx)).contract.nonce == 2 == |s.chain|)
  {
    hide Poll, SigsMap, Aligned, PowerOf, ExactMarks, Acceptable, Inv, Params.Sound, Accepts, UnforgedTx, FullySigned, FromHex, LookupIn,
         HashHex, RootBytes, ValsetBytes, Gather;
    var p, s, members := c.TheParams(), c.Published(), c.Members();
    PublishingIsLegal(c);
    OneConfirmIsThere(c);
    assert LastValsetAtMost(s.chain, 1) == Some(Valset(1, members, 1, 0));
    Relayer.EnoughConfirmsAreAccepted(p, s, NewRoot(c.root), c.TheSubject());
    EncodeIsLower(c.sig);
    FromHexReads(Encode(c.sig), c.sig);
  }

  /** So the relay loop gets the commitment through exactly then. */
  lemma ReadyIff(c: Cast)
    requires c.Signs()
    ensures Relayer.Ready(c.TheParams(), c.Published(), 2) <==> Acceptable(c.sig)
  {
    hide ExactMarks, PowerOf, Acceptable, Inv, Params.Sound, FromHex, LookupIn, HashHex;
    var p, s, members := c.TheParams(), c.Published(), c.Members();
    OneConfirmIsThere(c);
    assert LastValsetAtMost(s.chain, 1) == Some(Valset(1, members, 1, 0));
    assert SubjectOf(p, s.chain[1]) == c.TheSubject();
    assert Exact(FullLookup(p, s.dht), c.TheSubject(), members[0]);
    EncodeIsLower(c.sig);
    FromHexReads(Encode(c.sig), c.sig);
  }

  lemma SmallNumber() returns (s: Hash)
    ensures BigEndian(s) == 1
  {
    var zeros: seq<byte> := seq(31, _ => 0);
    BigEndianConcat(zeros, [1]);
    BigEndianZero(zeros);
    assert Pow256(0) == 1 && [1 as byte][1..] == [];
    s := zeros + [1];
  }

  lemma SignsWith(s: Hash, root: Hash) returns (c: Cast)
    ensures c.Signs() && (Acceptable(c.sig) <==> 0 < BigEndian(s) < THRESHOLD)
  {
    var sig := s + s + [0];
    assert sig[32..64] == s;
    c := Cast(sig[..20], sig, root);
  }

  /** There are validators of both kinds. */
  lemma BothKindsExist(root: Hash) returns (low: Cast, high: Cast)
    ensures low.Signs() && Acceptable(low.sig)
    ensures high.Signs() && !Acceptable(high.sig)
  {
    hide BigEndian, Acceptable;
    var one := SmallNumber();
    low := SignsWith(one, root);
    var half := ThresholdBytes();
    high := SignsWith(half, root);
  }
}
