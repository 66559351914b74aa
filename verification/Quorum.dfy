/**
 Collecting two thirds of the confirms (p2p/querier.go), laying the signatures out for the
 contract (relayer.go) and showing the same quorum on the command line (query/cmd.go).
 Powers are 64-bit and wrap.
 */
module Quorum {
  import opened Wrappers
  import opened Hex
  import opened Keys
  import opened Types
  import opened Signature

  /** What one DHT lookup answers. */
  datatype Answer = Found(confirm: Confirm) | NotFound | Failed

  /** The answers of all lookups made in one pass over the members. */
  type Lookup = string -> Answer

  /** What the polling loop meets next: a tick of its ticker, cancellation, or the timeout. */
  datatype PollEvent = Tick(lookup: Lookup) | Cancelled | TimedOut

  datatype QueryError = LookupFailed | ContextDone | NotEnoughConfirms

  /** What is being collected: the confirms of one digest. */
  datatype Subject = Subject(kind: ConfirmKind, nonce: nat, digest: string) {
    function Key(evmAddr: string): string {
      ConfirmKey(kind, nonce, evmAddr, digest)
    }
  }

  // --- power ---

  function Total(members: seq<Member>): nat {
    if members == [] then 0 else Total(members[..|members| - 1]) + members[|members| - 1].power
  }

  /** The power of the members that are marked. */
  function PowerOf(members: seq<Member>, marked: seq<bool>): nat
    requires |members| == |marked|
  {
    if members == [] then 0
    else
      var n := |members| - 1;
      PowerOf(members[..n], marked[..n]) + if marked[n] then members[n].power else 0
  }

  /** The sum held in an unsigned 64-bit variable. */
  function Wrap(sum: nat): nat {
    sum % UINT64_LIMIT
  }

  /** TwoThirdsThreshold belongs to another repository; this is what is relied on. */
  ghost predicate IsTwoThirds(threshold: seq<Member> -> nat) {
    forall members :: 3 * threshold(members) > 2 * Total(members)
  }

  predicate DistinctIgnoringCase(members: seq<Member>) {
    forall i, j | 0 <= i < j < |members| :: Lower(members[i].evmAddress) != Lower(members[j].evmAddress)
  }

  // --- the querier ---

  /** All confirms found for the members, in their order; the first failed lookup ends the pass. */
  function Gather(lookup: Lookup, subject: Subject, members: seq<Member>): Result<seq<Confirm>, QueryError> {
    if members == [] then Ok([])
    else
      match Gather(lookup, subject, members[..|members| - 1])
      case Err(e) => Err(e)
      case Ok(confirms) =>
        match lookup(subject.Key(members[|members| - 1].evmAddress))
        case Found(c) => Ok(confirms + [c])
        case NotFound => Ok(confirms)
        case Failed => Err(LookupFailed)
  }

  method QueryConfirms(lookup: Lookup, subject: Subject, members: seq<Member>)
    returns (r: Result<seq<Confirm>, QueryError>)
    ensures r == Gather(lookup, subject, members)
  {
    var confirms := [];
    for i := 0 to |members|
      invariant Gather(lookup, subject, members[..i]) == Ok(confirms)
    {
      assert members[..i + 1][..i] == members[..i];
      match lookup(subject.Key(members[i].evmAddress)) {
        case Found(c) => confirms := confirms + [c];
        case NotFound =>
        case Failed =>
          GatherFails(lookup, subject, members, i + 1);
          return Err(LookupFailed);
      }
    }
    assert members[..|members|] == members;
    return Ok(confirms);
  }

  /** A pass is complete exactly when no lookup failed, and fails for no other reason. */
  lemma {:induction false} PassIsCompleteIff(lookup: Lookup, subject: Subject, members: seq<Member>)
    ensures Gather(lookup, subject, members).Ok? <==> forall m | m in members :: !lookup(subject.Key(m.evmAddress)).Failed?
    ensures Gather(lookup, subject, members).Err? ==> Gather(lookup, subject, members) == Err(LookupFailed)
  {
    if members != [] {
      var n := |members| - 1;
      PassIsCompleteIff(lookup, subject, members[..n]);
      assert members == members[..n] + [members[n]];
    }
  }

  lemma {:induction false} GatherFails(lookup: Lookup, subject: Subject, members: seq<Member>, i: nat)
    requires i <= |members| && Gather(lookup, subject, members[..i]) == Err(LookupFailed)
    ensures Gather(lookup, subject, members) == Err(LookupFailed)
  {
    if i == |members| {
      assert members[..i] == members;
    } else {
      assert members[..|members| - 1][..i] == members[..i];
      GatherFails(lookup, subject, members[..|members| - 1], i);
    }
  }

  /** The `vals` map: the last of several members with one address wins. */
  function ValsOf(members: seq<Member>): map<string, Member> {
    if members == [] then map[]
    else ValsOf(members[..|members| - 1])[members[|members| - 1].evmAddress := members[|members| - 1]]
  }

  /** Each address stands for the last member that has it. */
  lemma {:induction false} ValsOfLast(members: seq<Member>, addr: string)
    ensures addr in ValsOf(members) <==> exists m :: m in members && m.evmAddress == addr
    ensures forall i | IsLastWith(members, addr, i) :: addr in ValsOf(members) && ValsOf(members)[addr] == members[i]
  {
    if members != [] {
      var n := |members| - 1;
      ValsOfLast(members[..n], addr);
      assert members == members[..n] + [members[n]];
      forall i | IsLastWith(members, addr, i) && i < n ensures IsLastWith(members[..n], addr, i) {
        assert members[..n][i] == members[i] && members[n].evmAddress != addr;
        assert forall j | i < j < n :: members[..n][j] == members[j];
      }
    }
  }

  predicate IsLastWith(members: seq<Member>, addr: string, i: int) {
    && 0 <= i < |members| && members[i].evmAddress == addr
    && forall j | i < j < |members| :: members[j].evmAddress != addr
  }

  /** The power of the signers of the first k confirms, in numbers of any size; unknown signers have none. */
  function SignersPower(vals: map<string, Member>, confirms: seq<Confirm>, k: nat): nat
    requires k <= |confirms|
  {
    if k == 0 then 0
    else
      SignersPower(vals, confirms, k - 1)
      + if confirms[k - 1].ethAddress in vals then vals[confirms[k - 1].ethAddress].power else 0
  }

  /** What is counted is their power, modulo 2^64. */
  lemma {:induction false} TallyIsWrapped(vals: map<string, Member>, confirms: seq<Confirm>, k: nat)
    requires k <= |confirms|
    ensures Tally(vals, confirms[..k]) == SignersPower(vals, confirms, k) % 0x1_0000_0000_0000_0000
  {
    if k > 0 {
      TallyIsWrapped(vals, confirms, k - 1);
      assert confirms[..k][..k - 1] == confirms[..k - 1];
      var addr := confirms[k - 1].ethAddress;
      WrappedSum(SignersPower(vals, confirms, k - 1), if addr in vals then vals[addr].power else 0);
    }
  }

  /** The running 64-bit sum; confirms of unknown signers are skipped. */
  function Tally(vals: map<string, Member>, confirms: seq<Confirm>): nat {
    if confirms == [] then 0
    else
      var c := confirms[|confirms| - 1];
      var before := Tally(vals, confirms[..|confirms| - 1]);
      if c.ethAddress in vals then Wrap(before + vals[c.ethAddress].power) else before
  }

  method CountConfirms(members: seq<Member>, confirms: seq<Confirm>) returns (currThreshold: nat)
    ensures currThreshold == Tally(ValsOf(members), confirms)
  {
    var vals: map<string, Member> := map[];
    for i := 0 to |members|
      invariant vals == ValsOf(members[..i])
    {
      assert members[..i + 1][..i] == members[..i];
      vals := vals[members[i].evmAddress := members[i]];
    }
    assert members[..|members|] == members;
    currThreshold := 0;
    for i := 0 to |confirms|
      invariant currThreshold == Tally(vals, confirms[..i])
    {
      assert confirms[..i + 1][..i] == confirms[..i];
      if confirms[i].ethAddress in vals {
        currThreshold := Wrap(currThreshold + vals[confirms[i].ethAddress].power);
      }
    }
    assert confirms[..|confirms|] == confirms;
  }

  /** The polling loop as a function of what it meets; when nothing more happens the context ends. */
  function Poll(events: seq<PollEvent>, subject: Subject, members: seq<Member>, threshold: nat)
    : Result<seq<Confirm>, QueryError>
  {
    if events == [] then Err(ContextDone)
    else
      match events[0]
      case Cancelled => Err(ContextDone)
      case TimedOut => Err(NotEnoughConfirms)
      case Tick(lookup) =>
        match Gather(lookup, subject, members)
        case Err(e) => Err(e)
        case Ok(confirms) =>
          if Tally(ValsOf(members), confirms) >= threshold && confirms != [] then Ok(confirms)
          else Poll(events[1..], subject, members, threshold)
  }

  /** A complete pass that finds no quorum: the poll waits for what comes next. */
  ghost predicate KeepsWaiting(event: PollEvent, subject: Subject, members: seq<Member>, threshold: nat) {
    && event.Tick?
    && var found := Gather(event.lookup, subject, members);
       found.Ok? && (found.value == [] || Tally(ValsOf(members), found.value) < threshold)
  }

  /** Event j is the first after which the poll does not wait. */
  ghost predicate EndsAt(events: seq<PollEvent>, j: int, subject: Subject, members: seq<Member>, threshold: nat) {
    && 0 <= j < |events| && !KeepsWaiting(events[j], subject, members, threshold)
    && forall i | 0 <= i < j :: KeepsWaiting(events[i], subject, members, threshold)
  }

  /** The first event that is no pass below the threshold decides. */
  lemma {:induction false} PollEndsAt(events: seq<PollEvent>, j: int, subject: Subject, members: seq<Member>, threshold: nat)
    requires EndsAt(events, j, subject, members, threshold)
    ensures Poll(events, subject, members, threshold) == (
              match events[j]
              case Tick(lookup) => Gather(lookup, subject, members)
              case Cancelled => Err(ContextDone)
              case TimedOut => Err(NotEnoughConfirms))
    decreases j
  {
    hide Gather, Tally, ValsOf;
    if j > 0 {
      var rest := events[1..];
      assert KeepsWaiting(events[0], subject, members, threshold);
      assert rest[j - 1] == events[j];
      assert forall i | 0 <= i < j - 1 :: rest[i] == events[i + 1];
      PollEndsAt(rest, j - 1, subject, members, threshold);
    }
  }

  /** Without such an event the context ends. */
  lemma {:induction false} PollWaits(events: seq<PollEvent>, subject: Subject, members: seq<Member>, threshold: nat)
    requires forall e | e in events :: KeepsWaiting(e, subject, members, threshold)
    ensures Poll(events, subject, members, threshold) == Err(ContextDone)
  {
    hide Gather, Tally, ValsOf;
    if events != [] {
      assert KeepsWaiting(events[0], subject, members, threshold);
      PollWaits(events[1..], subject, members, threshold);
    }
  }

  /**
   QueryTwoThirdsValsetConfirms and QueryTwoThirdsDataCommitmentConfirms; the first pass is
   made before waiting. The first pass at the threshold gives its confirms; a failed lookup,
   cancellation or the timeout ends the poll before that with its own error, and nothing else does.
   */
  method QueryTwoThirds(first: Lookup, events: seq<PollEvent>, subject: Subject, members: seq<Member>, threshold: nat)
    returns (r: Result<seq<Confirm>, QueryError>)
    ensures r == Poll([Tick(first)] + events, subject, members, threshold)
    ensures var all := [Tick(first)] + events;
            forall j | EndsAt(all, j, subject, members, threshold) ::
              r == (match all[j]
                    case Tick(lookup) => Gather(lookup, subject, members)
                    case Cancelled => Err(ContextDone)
                    case TimedOut => Err(NotEnoughConfirms))
    ensures (forall e | e in [Tick(first)] + events :: KeepsWaiting(e, subject, members, threshold)) ==> r == Err(ContextDone)
  {
    ghost var all := [Tick(first)] + events;
    forall j | EndsAt(all, j, subject, members, threshold)
      ensures Poll(all, subject, members, threshold) == (
                match all[j]
                case Tick(lookup) => Gather(lookup, subject, members)
                case Cancelled => Err(ContextDone)
                case TimedOut => Err(NotEnoughConfirms))
    {
      PollEndsAt(all, j, subject, members, threshold);
    }
    if forall e | e in all :: KeepsWaiting(e, subject, members, threshold) {
      PollWaits(all, subject, members, threshold);
    }
    var event := Tick(first);
    for i := 0 to |events| + 1
      invariant i <= |events| ==> event == all[i]
      invariant Poll(all, subject, members, threshold) == Poll(all[i..], subject, members, threshold)
    {
      assert all[i..][1..] == all[i + 1..];
      match event {
        case Cancelled => return Err(ContextDone);
        case TimedOut => return Err(NotEnoughConfirms);
        case Tick(lookup) =>
          var confirms := QueryConfirms(lookup, subject, members);
          if confirms.Err? {
            return confirms;
          }
          var currThreshold := CountConfirms(members, confirms.value);
          if currThreshold >= threshold && |confirms.value| != 0 {
            return confirms;
          }
      }
      if i < |events| {
        event := events[i];
      }
    }
    return Err(ContextDone);
  }

  /** The confirms of one complete pass, counted by the querier as reaching the threshold. */
  ghost predicate IsQuorum(confirms: seq<Confirm>, lookup: Lookup, subject: Subject, members: seq<Member>, threshold: nat) {
    Gather(lookup, subject, members) == Ok(confirms) && Tally(ValsOf(members), confirms) >= threshold
  }

  /** A successful poll is one pass, without failed lookups, that reached the threshold. */
  lemma {:induction false} PollSucceeds(events: seq<PollEvent>, subject: Subject, members: seq<Member>, threshold: nat)
    returns (k: nat)
    requires Poll(events, subject, members, threshold).Ok?
    ensures k < |events| && events[k].Tick?
    ensures var confirms := Poll(events, subject, members, threshold).value;
            confirms != [] && IsQuorum(confirms, events[k].lookup, subject, members, threshold)
    ensures forall j | 0 <= j < k :: events[j].Tick? && Gather(events[j].lookup, subject, members).Ok?
  {
    var confirms := Gather(events[0].lookup, subject, members).value;
    if Tally(ValsOf(members), confirms) >= threshold && confirms != [] {
      k := 0;
    } else {
      var k' := PollSucceeds(events[1..], subject, members, threshold);
      k := k' + 1;
      forall j | 0 <= j < k ensures events[j].Tick? && Gather(events[j].lookup, subject, members).Ok? {
        if j > 0 { assert events[j] == events[1..][j - 1]; }
      }
    }
  }

  /** If every pass finds the same and the first is complete, then the first decides. */
  lemma SamePassesDecideAtOnce(events: seq<PollEvent>, lookup: Lookup, subject: Subject, members: seq<Member>, threshold: nat)
    requires events != [] && events[0] == Tick(lookup) && Gather(lookup, subject, members).Ok?
    requires forall e | e in events && e.Tick? :: e.lookup == lookup
    ensures Poll(events, subject, members, threshold).Ok? <==> Poll([Tick(lookup)], subject, members, threshold).Ok?
    ensures Poll(events, subject, members, threshold).Ok? ==>
              Poll(events, subject, members, threshold) == Gather(lookup, subject, members)
  {
    hide Gather, Tally, ValsOf;
    var found := Gather(lookup, subject, members).value;
    if Poll(events, subject, members, threshold).Ok? {
      var k := PollSucceeds(events, subject, members, threshold);
      assert events[k] in events;
    }
    assert found != [] && Tally(ValsOf(members), found) >= threshold ==>
      Poll(events, subject, members, threshold) == Ok(found) == Poll([Tick(lookup)], subject, members, threshold);
  }

  // --- the relayer and the command line ---

  /** The map from address to signature built by the relayer and by the query command. */
  function SigsMap(confirms: seq<Confirm>): map<string, string> {
    if confirms == [] then map[]
    else SigsMap(confirms[..|confirms| - 1])[confirms[|confirms| - 1].ethAddress := confirms[|confirms| - 1].signature]
  }

  method BuildSigsMap(confirms: seq<Confirm>) returns (sigs: map<string, string>)
    ensures sigs == SigsMap(confirms)
  {
    sigs := map[];
    for i := 0 to |confirms|
      invariant sigs == SigsMap(confirms[..i])
    {
      assert confirms[..i + 1][..i] == confirms[..i];
      sigs := sigs[confirms[i].ethAddress := confirms[i].signature];
    }
    assert confirms[..|confirms|] == confirms;
  }

  /** The signature array lines up with the members, empty where there is no signature. */
  ghost predicate Aligned(slots: seq<Vrs>, sigs: map<string, string>, members: seq<Member>) {
    && |slots| == |members|
    && forall i | 0 <= i < |members| ::
         if members[i].evmAddress in sigs
         then SigToVRS(sigs[members[i].evmAddress]) == Ok(slots[i])
         else slots[i] == Empty
  }

  /** matchAttestationConfirmSigs: fails exactly when a signature it would use is not acceptable. */
  method MatchAttestationConfirmSigs(sigs: map<string, string>, members: seq<Member>)
    returns (r: Result<seq<Vrs>, SigError>)
    ensures r.Ok? ==> Aligned(r.value, sigs, members)
    ensures r.Err? <==> exists i | 0 <= i < |members| ::
              members[i].evmAddress in sigs && SigToVRS(sigs[members[i].evmAddress]).Err?
  {
    var slots := new Vrs[|members|](_ => Empty);
    for i := 0 to |members|
      invariant forall j | 0 <= j < i ::
                  if members[j].evmAddress in sigs
                  then SigToVRS(sigs[members[j].evmAddress]) == Ok(slots[j])
                  else slots[j] == Empty
      invariant forall j | i <= j < |members| :: slots[j] == Empty
    {
      if members[i].evmAddress !in sigs {
        continue;
      }
      var sig := SigToVRS(sigs[members[i].evmAddress]);
      if sig.Err? {
        return Err(sig.error);
      }
      slots[i] := sig.value;
    }
    return Ok(slots[..]);
  }

  /** An array can be made exactly when every signature it needs is usable. */
  lemma SlotsExistIff(sigs: map<string, string>, members: seq<Member>)
    ensures (exists slots :: Aligned(slots, sigs, members))
       <==> forall i | 0 <= i < |members| && members[i].evmAddress in sigs :: SigToVRS(sigs[members[i].evmAddress]).Ok?
  {
    if forall i | 0 <= i < |members| && members[i].evmAddress in sigs :: SigToVRS(sigs[members[i].evmAddress]).Ok? {
      var slots := seq(|members|, i requires 0 <= i < |members| =>
        if members[i].evmAddress in sigs then SigToVRS(sigs[members[i].evmAddress]).value else Empty);
      assert Aligned(slots, sigs, members);
    }
  }

  /** What is shown of a validator next to its address. */
  datatype ValidatorInfo = ValidatorInfo(evmAddress: string, moniker: string, valopAddress: string)

  datatype SignatureLine = SignatureLine(validator: ValidatorInfo, signature: string, signed: bool)

  datatype QueryOutput = QueryOutput(
    signatures: seq<SignatureLine>,
    nonce: nat,
    majorityThreshold: nat,
    currentThreshold: nat,
    canRelay: bool
  )

  /** The line shown for a member; unsigned unless the map has its address, in the valset's spelling. */
  function LineFor(confirmsMap: map<string, string>, validatorsInfo: map<string, ValidatorInfo>, addr: string): SignatureLine {
    var info := InfoOf(validatorsInfo, addr);
    if addr in confirmsMap then SignatureLine(info, confirmsMap[addr], true) else SignatureLine(info, "", false)
  }

  /** The names known for the address, and empty ones if there are none. */
  function InfoOf(validatorsInfo: map<string, ValidatorInfo>, addr: string): ValidatorInfo {
    if addr in validatorsInfo then validatorsInfo[addr].(evmAddress := addr) else ValidatorInfo(addr, "", "")
  }

  lemma WrappedSum(x: nat, y: nat)
    ensures Wrap(Wrap(x) + y) == Wrap(x + y)
  {
  }

  /** toQueryOutput: what it shows for each member, and the power it adds up. */
  method ToQueryOutput(confirmsMap: map<string, string>, validatorsInfo: map<string, ValidatorInfo>, nonce: nat,
                       members: seq<Member>, threshold: nat)
    returns (output: QueryOutput)
    ensures |output.signatures| == |members| && output.nonce == nonce && output.majorityThreshold == threshold
    ensures forall i | 0 <= i < |members| ::
              var line, addr := output.signatures[i], members[i].evmAddress;
              && line.validator.evmAddress == addr
              && (addr in validatorsInfo ==>
                    && line.validator.moniker == validatorsInfo[addr].moniker
                    && line.validator.valopAddress == validatorsInfo[addr].valopAddress)
              && (addr !in validatorsInfo ==> line.validator.moniker == line.validator.valopAddress == "")
              && (line.signed <==> addr in confirmsMap)
              && line.signature == if line.signed then confirmsMap[addr] else ""
    ensures output.currentThreshold == Wrap(PowerOf(members, Marks(members, confirmsMap)))
    ensures output.canRelay <==> threshold <= output.currentThreshold
  {
    var currThreshold := 0;
    var lines := new SignatureLine[|members|](_ => SignatureLine(ValidatorInfo("", "", ""), "", false));
    ghost var marks := Marks(members, confirmsMap);
    for i := 0 to |members|
      invariant forall j | 0 <= j < i :: lines[j] == LineFor(confirmsMap, validatorsInfo, members[j].evmAddress)
      invariant currThreshold == Wrap(PowerOf(members[..i], marks[..i]))
    {
      PowerStep(members, marks, i);
      WrappedSum(PowerOf(members[..i], marks[..i]), members[i].power);
      hide PowerOf, Total, Wrap;
      var addr := members[i].evmAddress;
      if addr in confirmsMap {
        lines[i] := SignatureLine(InfoOf(validatorsInfo, addr), confirmsMap[addr], true);
        currThreshold := Wrap(currThreshold + members[i].power);
      } else {
        lines[i] := SignatureLine(InfoOf(validatorsInfo, addr), "", false);
      }
    }
    assert members[..|members|] == members && marks[..|members|] == marks;
    return QueryOutput(lines[..], nonce, threshold, currThreshold, threshold <= currThreshold);
  }

  /** The members whose address is a key of the map. */
  function Marks(members: seq<Member>, sigs: map<string, string>): (marks: seq<bool>)
    ensures |marks| == |members|
  {
    seq(|members|, i requires 0 <= i < |members| => members[i].evmAddress in sigs)
  }

  /** The members with a signature in the array. */
  function Filled(slots: seq<Vrs>): (marks: seq<bool>)
    ensures |marks| == |slots|
  {
    seq(|slots|, i requires 0 <= i < |slots| => slots[i].Vrs?)
  }

  // --- the three counts agree ---

  /** What the DHT validators guarantee of the confirm found under a member's key. */
  ghost predicate SoundLookup(lookup: Lookup, subject: Subject, members: seq<Member>) {
    forall i | 0 <= i < |members| ::
      var answer := lookup(subject.Key(members[i].evmAddress));
      answer.Found? ==> Lower(answer.confirm.ethAddress) == Lower(members[i].evmAddress)
  }

  /** The member's own lookup found a confirm that spells its address the way the valset does. */
  predicate Exact(lookup: Lookup, subject: Subject, m: Member) {
    var answer := lookup(subject.Key(m.evmAddress));
    answer.Found? && answer.confirm.ethAddress == m.evmAddress
  }

  function ExactMarks(lookup: Lookup, subject: Subject, members: seq<Member>): (marks: seq<bool>)
    ensures |marks| == |members|
  {
    seq(|members|, i requires 0 <= i < |members| => Exact(lookup, subject, members[i]))
  }

  lemma {:induction false} PowerBelowTotal(members: seq<Member>, marks: seq<bool>)
    requires |members| == |marks|
    ensures PowerOf(members, marks) <= Total(members)
  {
    if members != [] {
      PowerBelowTotal(members[..|members| - 1], marks[..|members| - 1]);
    }
  }

  lemma {:induction false} ValsOfDistinct(members: seq<Member>, i: nat)
    requires DistinctIgnoringCase(members) && i < |members|
    ensures members[i].evmAddress in ValsOf(members) && ValsOf(members)[members[i].evmAddress] == members[i]
  {
    var n := |members| - 1;
    if i < n {
      ValsOfDistinct(members[..n], i);
      assert Lower(members[i].evmAddress) != Lower(members[n].evmAddress);
    }
  }

  lemma {:induction false} ValsOfKeys(members: seq<Member>, addr: string) returns (i: nat)
    requires addr in ValsOf(members)
    ensures i < |members| && members[i].evmAddress == addr
  {
    var n := |members| - 1;
    if members[n].evmAddress == addr {
      i := n;
    } else {
      i := ValsOfKeys(members[..n], addr);
    }
  }

  /** A confirm counts for the member it was looked up for, or for nobody. */
  lemma ConfirmCountsForItsMember(members: seq<Member>, i: nat, c: Confirm)
    requires DistinctIgnoringCase(members) && i < |members|
    requires Lower(c.ethAddress) == Lower(members[i].evmAddress)
    ensures c.ethAddress in ValsOf(members) <==> c.ethAddress == members[i].evmAddress
    ensures c.ethAddress in ValsOf(members) ==> ValsOf(members)[c.ethAddress] == members[i]
  {
    ValsOfDistinct(members, i);
    if c.ethAddress in ValsOf(members) {
      var j := ValsOfKeys(members, c.ethAddress);
      assert Lower(members[j].evmAddress) == Lower(members[i].evmAddress);
    }
  }

  lemma PowerStep(members: seq<Member>, marks: seq<bool>, i: nat)
    requires |members| == |marks| && i < |members|
    ensures PowerOf(members[..i + 1], marks[..i + 1])
         == PowerOf(members[..i], marks[..i]) + if marks[i] then members[i].power else 0
  {
    assert members[..i + 1][..i] == members[..i] && marks[..i + 1][..i] == marks[..i];
  }

  lemma PowerPrefix(members: seq<Member>, marks: seq<bool>, k: nat)
    requires |members| == |marks| && 0 < k <= |members|
    ensures PowerOf(members[..k], marks[..k])
         == PowerOf(members[..k - 1], marks[..k - 1]) + if marks[k - 1] then members[k - 1].power else 0
    ensures PowerOf(members[..k], marks[..k]) <= Total(members)
  {
    PowerStep(members, marks, k - 1);
    PrefixTotal(members, k);
    PowerBelowTotal(members[..k], marks[..k]);
  }

  lemma {:induction false} PowerOfPrefix(members: seq<Member>, marks: seq<bool>, k: nat)
    requires |members| == |marks| && k <= |members|
    ensures PowerOf(members[..k], marks[..k]) <= PowerOf(members, marks)
  {
    var n := |members|;
    if k == n {
      assert members[..n] == members && marks[..n] == marks;
    } else {
      assert members[..n - 1][..k] == members[..k] && marks[..n - 1][..k] == marks[..k];
      PowerOfPrefix(members[..n - 1], marks[..n - 1], k);
    }
  }

  /** The querier's sum over the first k members' confirms is the power of the exact ones among them. */
  lemma {:induction false} TallyPrefix(lookup: Lookup, subject: Subject, members: seq<Member>, k: nat)
    requires DistinctIgnoringCase(members) && SoundLookup(lookup, subject, members) && Total(members) < UINT64_LIMIT
    requires k <= |members| && Gather(lookup, subject, members[..k]).Ok?
    ensures Tally(ValsOf(members), Gather(lookup, subject, members[..k]).value)
         == PowerOf(members[..k], ExactMarks(lookup, subject, members)[..k])
  {
    if k > 0 {
      hide Tally, PowerOf, ValsOf, Total, DistinctIgnoringCase, Subject.Key, Lower;
      var marks := ExactMarks(lookup, subject, members);
      GatherStep(lookup, subject, members, k);
      TallyPrefix(lookup, subject, members, k - 1);
      PowerPrefix(members, marks, k);
      assert marks[k - 1] == Exact(lookup, subject, members[k - 1]);
      hide Gather, ExactMarks, Exact;
      TallyOneMore(lookup, subject, members, k - 1, Gather(lookup, subject, members[..k - 1]).value,
                   PowerOf(members[..k - 1], marks[..k - 1]));
    }
  }

  /** The confirms gathered once one more member has been asked. */
  function GatherNext(before: seq<Confirm>, answer: Answer): seq<Confirm> {
    if answer.Found? then before + [answer.confirm] else before
  }

  lemma TallyOneMore(lookup: Lookup, subject: Subject, members: seq<Member>, i: nat, before: seq<Confirm>, sum: nat)
    requires DistinctIgnoringCase(members) && i < |members|
    requires var answer := lookup(subject.Key(members[i].evmAddress));
             answer.Found? ==> Lower(answer.confirm.ethAddress) == Lower(members[i].evmAddress)
    requires Tally(ValsOf(members), before) == sum
    requires sum + (if Exact(lookup, subject, members[i]) then members[i].power else 0) < UINT64_LIMIT
    ensures Tally(ValsOf(members), GatherNext(before, lookup(subject.Key(members[i].evmAddress))))
         == sum + if Exact(lookup, subject, members[i]) then members[i].power else 0
  {
    var answer := lookup(subject.Key(members[i].evmAddress));
    if answer.Found? {
      TallyStep(ValsOf(members), before, answer.confirm);
      ConfirmCountsForItsMember(members, i, answer.confirm);
    }
  }

  lemma GatherStep(lookup: Lookup, subject: Subject, members: seq<Member>, k: nat)
    requires 0 < k <= |members| && Gather(lookup, subject, members[..k]).Ok?
    ensures Gather(lookup, subject, members[..k - 1]).Ok?
    ensures Gather(lookup, subject, members[..k]).value
         == GatherNext(Gather(lookup, subject, members[..k - 1]).value, lookup(subject.Key(members[k - 1].evmAddress)))
  {
    assert members[..k][..k - 1] == members[..k - 1];
  }

  lemma TallyStep(vals: map<string, Member>, confirms: seq<Confirm>, c: Confirm)
    ensures Tally(vals, confirms + [c]) ==
            if c.ethAddress in vals then Wrap(Tally(vals, confirms) + vals[c.ethAddress].power)
            else Tally(vals, confirms)
  {
    assert (confirms + [c])[..|confirms|] == confirms;
  }

  lemma {:induction false} PrefixTotal(members: seq<Member>, k: nat)
    requires k <= |members|
    ensures Total(members[..k]) <= Total(members)
  {
    if k < |members| {
      assert members[..|members| - 1][..k] == members[..k];
      PrefixTotal(members[..|members| - 1], k);
    } else {
      assert members[..k] == members;
    }
  }

  /** An address is in the map exactly if one of the gathered confirms carries it. */
  lemma {:induction false} SigsMapKeys(confirms: seq<Confirm>, addr: string)
    ensures addr in SigsMap(confirms) <==> exists c :: c in confirms && c.ethAddress == addr
    ensures addr in SigsMap(confirms) ==>
              exists c :: c in confirms && c.ethAddress == addr && SigsMap(confirms)[addr] == c.signature
  {
    if confirms != [] {
      var n := |confirms| - 1;
      SigsMapKeys(confirms[..n], addr);
      assert confirms == confirms[..n] + [confirms[n]];
      assert confirms[n] in confirms;
    }
  }

  /** Of several confirms of one address the map has the signature of the last. */
  lemma {:induction false} SigsMapLast(confirms: seq<Confirm>, i: nat)
    requires i < |confirms| && forall j | i < j < |confirms| :: confirms[j].ethAddress != confirms[i].ethAddress
    ensures confirms[i].ethAddress in SigsMap(confirms) && SigsMap(confirms)[confirms[i].ethAddress] == confirms[i].signature
  {
    var n := |confirms| - 1;
    if i < n {
      SigsMapLast(confirms[..n], i);
    }
  }

  lemma {:induction false} GatheredFrom(lookup: Lookup, subject: Subject, members: seq<Member>, c: Confirm) returns (i: nat)
    requires Gather(lookup, subject, members).Ok? && c in Gather(lookup, subject, members).value
    ensures i < |members| && lookup(subject.Key(members[i].evmAddress)) == Found(c)
  {
    var n := |members| - 1;
    if lookup(subject.Key(members[n].evmAddress)) == Found(c) {
      i := n;
    } else {
      i := GatheredFrom(lookup, subject, members[..n], c);
    }
  }

  lemma {:induction false} FoundIsGathered(lookup: Lookup, subject: Subject, members: seq<Member>, i: nat)
    requires Gather(lookup, subject, members).Ok? && i < |members|
    requires lookup(subject.Key(members[i].evmAddress)).Found?
    ensures lookup(subject.Key(members[i].evmAddress)).confirm in Gather(lookup, subject, members).value
  {
    var n := |members| - 1;
    if i < n {
      FoundIsGathered(lookup, subject, members[..n], i);
    }
  }

  /** The map holds, for a member with an exact confirm, the signature of that confirm. */
  lemma ExactSignature(lookup: Lookup, subject: Subject, members: seq<Member>, i: nat)
    requires DistinctIgnoringCase(members) && SoundLookup(lookup, subject, members)
    requires Gather(lookup, subject, members).Ok? && i < |members| && Exact(lookup, subject, members[i])
    ensures var sigs, addr := SigsMap(Gather(lookup, subject, members).value), members[i].evmAddress;
            addr in sigs && sigs[addr] == lookup(subject.Key(addr)).confirm.signature
  {
    hide SigsMap, Gather;
    var confirms, addr := Gather(lookup, subject, members).value, members[i].evmAddress;
    FoundIsGathered(lookup, subject, members, i);
    SigsMapKeys(confirms, addr);
    var c :| c in confirms && c.ethAddress == addr && SigsMap(confirms)[addr] == c.signature;
    var j := GatheredFrom(lookup, subject, members, c);
    assert Lower(c.ethAddress) == Lower(members[j].evmAddress);
    assert i == j;
  }

  /** Which members the maps of the relayer and of the command line know. */
  lemma MapMarksAreExact(lookup: Lookup, subject: Subject, members: seq<Member>)
    requires DistinctIgnoringCase(members) && SoundLookup(lookup, subject, members)
    requires Gather(lookup, subject, members).Ok?
    ensures Marks(members, SigsMap(Gather(lookup, subject, members).value)) == ExactMarks(lookup, subject, members)
  {
    var confirms := Gather(lookup, subject, members).value;
    forall i | 0 <= i < |members|
      ensures members[i].evmAddress in SigsMap(confirms) <==> Exact(lookup, subject, members[i])
    {
      var addr := members[i].evmAddress;
      SigsMapKeys(confirms, addr);
      if addr in SigsMap(confirms) {
        var c :| c in confirms && c.ethAddress == addr;
        var j := GatheredFrom(lookup, subject, members, c);
        assert Lower(c.ethAddress) == Lower(members[j].evmAddress);
        assert i == j;
      }
      if Exact(lookup, subject, members[i]) {
        FoundIsGathered(lookup, subject, members, i);
      }
    }
  }

  /**
   For members with distinct addresses and a total power that fits 64 bits, the power the
   querier counts, the power of the members with a slot in the signature array, and the
   power the query command shows are one number, the power of the exact confirms.
   */
  lemma CountsAgree(lookup: Lookup, subject: Subject, members: seq<Member>, slots: seq<Vrs>)
    requires DistinctIgnoringCase(members) && SoundLookup(lookup, subject, members) && Total(members) < UINT64_LIMIT
    requires Gather(lookup, subject, members).Ok?
    requires Aligned(slots, SigsMap(Gather(lookup, subject, members).value), members)
    ensures var confirms := Gather(lookup, subject, members).value;
            var counted := Tally(ValsOf(members), confirms);
            && counted == PowerOf(members, Filled(slots))
            && counted == Wrap(PowerOf(members, Marks(members, SigsMap(confirms))))
            && Filled(slots) == ExactMarks(lookup, subject, members)
  {
    hide Gather, Tally, PowerOf, ValsOf, Total, SigsMap, Aligned, ExactMarks, Marks, Filled;
    var confirms := Gather(lookup, subject, members).value;
    var marks := ExactMarks(lookup, subject, members);
    assert members[..|members|] == members && marks[..|members|] == marks;
    TallyPrefix(lookup, subject, members, |members|);
    MapMarksAreExact(lookup, subject, members);
    PowerBelowTotal(members, marks);
    FilledAreMarks(slots, SigsMap(confirms), members);
  }

  lemma FilledAreMarks(slots: seq<Vrs>, sigs: map<string, string>, members: seq<Member>)
    requires Aligned(slots, sigs, members)
    ensures Filled(slots) == Marks(members, sigs)
  {
    forall i | 0 <= i < |members| ensures Filled(slots)[i] == Marks(members, sigs)[i] {
      var addr := members[i].evmAddress;
      if addr in sigs {
        SigToVRSIff(sigs[addr]);
      }
    }
  }

  /** A pass without failed lookups succeeds exactly when the members with an exact confirm reach the threshold. */
  lemma PassSucceedsIff(threshold: seq<Member> -> nat, lookup: Lookup, subject: Subject, members: seq<Member>)
    requires IsTwoThirds(threshold)
    requires DistinctIgnoringCase(members) && SoundLookup(lookup, subject, members) && Total(members) < UINT64_LIMIT
    requires Gather(lookup, subject, members).Ok?
    ensures Poll([Tick(lookup)], subject, members, threshold(members)).Ok?
       <==> PowerOf(members, ExactMarks(lookup, subject, members)) >= threshold(members)
  {
    var marks, confirms := ExactMarks(lookup, subject, members), Gather(lookup, subject, members).value;
    assert members[..|members|] == members && marks[..|members|] == marks;
    TallyPrefix(lookup, subject, members, |members|);
    assert threshold(members) > 0;
    assert Tally(ValsOf(members), []) == 0;
  }

  // --- quorums intersect ---

  function Both(a: seq<bool>, b: seq<bool>): (c: seq<bool>)
    requires |a| == |b|
    ensures |c| == |a|
  {
    seq(|a|, i requires 0 <= i < |a| => a[i] && b[i])
  }

  lemma {:induction false} InclusionExclusion(members: seq<Member>, a: seq<bool>, b: seq<bool>)
    requires |members| == |a| == |b|
    ensures PowerOf(members, a) + PowerOf(members, b) <= Total(members) + PowerOf(members, Both(a, b))
  {
    if members != [] {
      var n := |members| - 1;
      InclusionExclusion(members[..n], a[..n], b[..n]);
      assert Both(a, b)[..n] == Both(a[..n], b[..n]);
    }
  }

  /**
   Two successful polls over one valset, whatever they collected confirms for, share members
   holding more than a third of the power, each of whom answered both with its own address.
   */
  lemma QuorumsIntersect(threshold: seq<Member> -> nat, members: seq<Member>,
                         events1: seq<PollEvent>, subject1: Subject, events2: seq<PollEvent>, subject2: Subject)
    returns (k1: nat, k2: nat)
    requires IsTwoThirds(threshold) && DistinctIgnoringCase(members) && Total(members) < UINT64_LIMIT
    requires forall e | e in events1 && e.Tick? :: SoundLookup(e.lookup, subject1, members)
    requires forall e | e in events2 && e.Tick? :: SoundLookup(e.lookup, subject2, members)
    requires Poll(events1, subject1, members, threshold(members)).Ok?
    requires Poll(events2, subject2, members, threshold(members)).Ok?
    ensures k1 < |events1| && events1[k1].Tick? && k2 < |events2| && events2[k2].Tick?
    ensures Gather(events1[k1].lookup, subject1, members) == Poll(events1, subject1, members, threshold(members))
    ensures Gather(events2[k2].lookup, subject2, members) == Poll(events2, subject2, members, threshold(members))
    ensures var shared := Both(ExactMarks(events1[k1].lookup, subject1, members),
                               ExactMarks(events2[k2].lookup, subject2, members));
            3 * PowerOf(members, shared) > Total(members)
  {
    k1 := PollSucceeds(events1, subject1, members, threshold(members));
    k2 := PollSucceeds(events2, subject2, members, threshold(members));
    var m1, m2 := ExactMarks(events1[k1].lookup, subject1, members), ExactMarks(events2[k2].lookup, subject2, members);
    assert events1[k1] in events1 && events2[k2] in events2;
    assert members[..|members|] == members && m1[..|members|] == m1 && m2[..|members|] == m2;
    TallyPrefix(events1[k1].lookup, subject1, members, |members|);
    TallyPrefix(events2[k2].lookup, subject2, members, |members|);
    InclusionExclusion(members, m1, m2);
  }
}
