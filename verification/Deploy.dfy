/** cmd/blobstream/deploy/cmd.go: the valset and nonce a contract is initialised with. */
module Deploy {
  import opened Wrappers
  import opened Types
  import opened Chain
  import opened Hex
  import opened Keys
  import opened History
  import opened Protocol

  /** The answers the deploy command gets; the two latest-nonce queries are made one after the other. */
  datatype Answers = Answers(
    now: LatestAnswers,
    byHeight: nat -> LatestAnswers,
    latestNonce: Option<nat>,
    currentHeight: Option<nat>,
    firstNow: Response,
    firstAtOne: Response,
    archive: Archive,
    period: nat
  )

  datatype DeployError = QueryFailed | NotAValset | BadStartingNonce | NilAttestation | NotFoundAtAll

  function OrQueryFailed(r: Result<Valset, HistoryError>): Result<Valset, DeployError> {
    match r case Ok(vs) => Ok(vs) case Err(_) => Err(QueryFailed)
  }

  function GetStartingValset(start: string, q: Answers): Result<Valset, DeployError>
    requires q.period >= 1
  {
    if start == "latest" then
      match (QueryLatestValset(q.now), q.currentHeight)
      case (Some(vs), _) => Ok(vs)
      case (None, None) => Err(QueryFailed)
      case (None, Some(height)) =>
        match StridedLatest(q.byHeight, height, q.period)
        case Err(_) => Err(QueryFailed)
        case Ok(a) => Ok(QueryLatestValset(a).value)
    else if start == "earliest" then
      var failed := q.firstNow in {RpcError, Undecodable};
      if failed && q.firstAtOne in {RpcError, Undecodable} then Err(QueryFailed)
      else
        match if failed then q.firstAtOne else q.firstNow
        case Got(ValsetAtt(vs)) => Ok(vs)
        case _ => Err(NotAValset)
    else
      match (ParseUint(start, 10), q.currentHeight)
      case (None, _) => Err(BadStartingNonce)
      case (_, None) => Err(QueryFailed)
      case (Some(nonce), Some(height)) =>
        match Strided(q.archive, nonce, height, q.period)
        case Err(_) => Err(QueryFailed)
        case Ok(None) => Err(NilAttestation)
        case Ok(Some(ValsetAtt(vs))) => Ok(vs)
        case Ok(Some(CommitmentAtt(_, _, endBlock))) =>
          OrQueryFailed(WalkBack(q.archive, Predecessor(nonce), endBlock, q.period))
        case Ok(Some(UnknownAtt(_))) => Err(NotFoundAtAll)
  }

  function ParseStartingNonce(start: string, q: Answers): Result<nat, DeployError> {
    if start == "latest" then match q.latestNonce case Some(n) => Ok(n) case None => Err(QueryFailed)
    else if start == "earliest" then Ok(1)
    else match ParseUint(start, 10) case Some(n) => Ok(n) case None => Err(BadStartingNonce)
  }

  /** The queries are answered from this chain, possibly from earlier states of it. */
  ghost predicate AnsweredFrom(q: Answers, chain: seq<Attestation>) {
    && NumberedFromOne(chain) && q.period >= 1 && ArchiveOf(q.archive, chain)
    && TrueOf(q.now, chain) && (forall h: nat :: TrueOf(q.byHeight(h), chain))
    && (q.firstNow.Got? ==> chain != [] && q.firstNow.att == chain[0])
    && (q.firstAtOne.Got? ==> chain != [] && q.firstAtOne.att == chain[0])
  }

  /** The answers that "latest" takes its valset from. */
  function Used(q: Answers): (a: LatestAnswers)
    requires q.period >= 1 && GetStartingValset("latest", q).Ok?
    ensures a.latestNonce.Some? && QueryLatestValset(a).Some?
    ensures GetStartingValset("latest", q) == Ok(QueryLatestValset(a).value)
  {
    if QueryLatestValset(q.now).Some? then q.now else StridedLatest(q.byHeight, q.currentHeight.value, q.period).value
  }

  /** The nonce asked for: the first, or that which the decimal text denotes. */
  predicate AsksFor(start: string, n: nat) {
    (start == "earliest" && n == 1) || (IsNumeral(start, 10) && Denoted(start, 10) == n)
  }

  /** Deploying from a numeric nonce or from the earliest one uses that nonce and the last valset up to it. */
  lemma NumericStartIsRight(start: string, q: Answers, chain: seq<Attestation>)
    requires AnsweredFrom(q, chain) && start != "latest"
    requires GetStartingValset(start, q).Ok?
    ensures ParseStartingNonce(start, q).Ok? && AsksFor(start, ParseStartingNonce(start, q).value)
    ensures 1 <= ParseStartingNonce(start, q).value <= |chain|
    ensures LastValsetAtMost(chain, ParseStartingNonce(start, q).value) == Some(GetStartingValset(start, q).value)
  {
    if start != "earliest" {
      var nonce := ParseUint(start, 10).value;
      ParseUintIff(start, 10, nonce);
      StridedOfArchive(q.archive, chain, nonce, q.currentHeight.value, q.period);
      match Strided(q.archive, nonce, q.currentHeight.value, q.period).value.value {
        case ValsetAtt(vs) =>
        case CommitmentAtt(_, _, endBlock) =>
          WalkBackIsRight(q.archive, chain, Predecessor(nonce), endBlock, q.period);
      }
    } else {
      assert IsValsetAt(chain, 1);
    }
  }

  /** And it finds that valset, if the archive has the attestation and those below it at the heights searched. */
  lemma NumericStartFinds(start: string, nonce: nat, q: Answers, chain: seq<Attestation>)
    requires AnsweredFrom(q, chain) && |chain| < UINT64_LIMIT
    requires IsNumeral(start, 10) && Denoted(start, 10) == nonce && 1 <= nonce <= |chain|
    requires q.currentHeight.Some? && Strided(q.archive, nonce, q.currentHeight.value, q.period).Ok?
    requires var att := chain[nonce - 1];
             && !att.UnknownAtt?
             && (att.CommitmentAtt? ==> forall n | 1 <= n < nonce :: Strided(q.archive, n, att.endBlock, q.period).Ok?)
    ensures ParseStartingNonce(start, q) == Ok(nonce)
    ensures GetStartingValset(start, q).Ok? && LastValsetAtMost(chain, nonce) == Some(GetStartingValset(start, q).value)
  {
    KeywordsAreNoNumerals(start);
    ParseUintIff(start, 10, nonce);
    var att := chain[nonce - 1];
    StridedOfArchive(q.archive, chain, nonce, q.currentHeight.value, q.period);
    if att.CommitmentAtt? {
      assert att.Nonce() == nonce;
      LastValsetExists(chain, nonce - 1);
      WalkBackIsComplete(q.archive, chain, nonce - 1, att.endBlock, q.period);
    }
    NumericStartIsRight(start, q, chain);
  }

  lemma KeywordsAreNoNumerals(start: string)
    requires IsNumeral(start, 10)
    ensures start != "latest" && start != "earliest"
  {
    assert DigitValue(start[0]).Some? && DigitValue(start[0]).value < 10;
  }

  /** The earliest valset is had exactly when one of the two queries for it is answered with it. */
  lemma EarliestStartFindsIff(q: Answers, chain: seq<Attestation>)
    requires AnsweredFrom(q, chain)
    ensures GetStartingValset("earliest", q).Ok?
       <==> q.firstNow.Got? || (!q.firstNow.Nothing? && q.firstAtOne.Got?)
  {
  }

  /** The latest valset is had if the node answers, or some window of heights of an archive node does. */
  lemma LatestStartFinds(q: Answers, from: nat)
    requires q.period >= 1
    requires || QueryLatestValset(q.now).Some?
             || (&& q.currentHeight.Some? && 1 <= from <= q.currentHeight.value
                 && (forall h: nat | h <= q.currentHeight.value :: q.byHeight(h).latestNonce.Some?)
                 && (forall h: nat | from <= h < from + q.period && h <= q.currentHeight.value ::
                       QueryLatestValset(q.byHeight(h)).Some?))
    ensures GetStartingValset("latest", q).Ok?
    ensures q.latestNonce.Some? ==> ParseStartingNonce("latest", q) == Ok(q.latestNonce.value)
  {
    if QueryLatestValset(q.now).None? {
      StridedLatestFinds(q.byHeight, q.currentHeight.value, q.period, from);
    }
  }

  /** A contract deployed that way is a state from which every run keeps the protocol's invariant. */
  lemma NumericDeploymentIsTrusted(p: Params, start: string, q: Answers, chain: seq<Attestation>)
    requires p.Sound() && ProperChain(p, chain) && AnsweredFrom(q, chain) && start != "latest"
    requires GetStartingValset(start, q).Ok?
    ensures ParseStartingNonce(start, q).Ok? && AsksFor(start, ParseStartingNonce(start, q).value)
    ensures var vs, nonce := GetStartingValset(start, q).value, ParseStartingNonce(start, q).value;
            var s := State(chain, {}, map[], Contract(nonce, p.valsetDigest(vs.nonce, vs.members)));
            Deployed(p, s, vs, nonce) && Inv(p, s)
  {
    NumericStartIsRight(start, q, chain);
  }

  /**
   Deploying from "latest" looks up the valset first and the nonce after it. The two fit
   together exactly when no valset was issued between the nonce that the valset's answers
   reach up to and the nonce the contract starts from.
   */
  lemma LatestStartIsRightIff(q: Answers, chain: seq<Attestation>)
    requires AnsweredFrom(q, chain) && GetStartingValset("latest", q).Ok?
    requires ParseStartingNonce("latest", q).Ok? && q.latestNonce.value <= |chain|
    requires Used(q).latestNonce.value <= q.latestNonce.value
    ensures LastValsetAtMost(chain, ParseStartingNonce("latest", q).value) == Some(GetStartingValset("latest", q).value)
       <==> forall j | UpTo(Used(q)) < j <= q.latestNonce.value :: !IsValsetAt(chain, j)
  {
    if QueryLatestValset(q.now).Some? {
      AnswersShowLastValset(q.now, chain);
    } else {
      StridedLatestIsTrue(q.byHeight, chain, q.currentHeight.value, q.period);
    }
    var from, to := UpTo(Used(q)), q.latestNonce.value;
    var m := LastValsetPosition(chain, from);
    if forall j | from < j <= to :: !IsValsetAt(chain, j) {
      LastValsetIsGreatest(chain, to, m);
    } else {
      var j :| from < j <= to && IsValsetAt(chain, j);
      LastValsetExists(chain, to);
      var last := LastValsetPosition(chain, to);
      assert last >= j;
      assert chain[last - 1].Nonce() == last && chain[m - 1].Nonce() == m;
    }
  }

  /** Answers given while the second of two valsets was issued: the valset query saw the first only. */
  function Overtaken(first: Valset, period: nat): Answers {
    Answers(LatestAnswers(Some(1), Got(ValsetAtt(first)), None), (h: nat) => LatestAnswers(None, RpcError, None), Some(2),
            None, RpcError, RpcError, (n: nat, h: nat) => RpcError, period)
  }

  /** Then the contract is deployed at nonce 2 with the first valset, and does not follow the chain. */
  lemma LatestStartCanBeWrong(p: Params, first: Valset, second: Valset, period: nat)
    requires p.Sound() && first.nonce == 1 && second.nonce == 2 && period >= 1
    ensures var chain, q := [ValsetAtt(first), ValsetAtt(second)], Overtaken(first, period);
            && AnsweredFrom(q, chain)
            && GetStartingValset("latest", q) == Ok(first) && ParseStartingNonce("latest", q) == Ok(2)
            && !TrustsLastValset(p, chain, Contract(2, p.valsetDigest(first.nonce, first.members)))
  {
    var chain, q := [ValsetAtt(first), ValsetAtt(second)], Overtaken(first, period);
    assert IsValsetAt(chain, 2);
    assert LastValsetAtMost(chain, 2) == Some(second);
  }
}
