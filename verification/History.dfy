/**
 rpc/app_querier.go: searching the history of an archive node, backwards by height in
 strides and backwards by nonce.
 */
module History {
  import opened Wrappers
  import opened Types
  import opened Chain

  /** One query for a nonce at a height; `Nothing` is a reply without an attestation in it. */
  datatype Response = RpcError | Undecodable | Nothing | Got(att: Attestation)

  type Archive = (nat, nat) -> Response

  datatype HistoryError = NotFound | DecodeError | ContextDone | RpcFailed

  /** The heights still to be visited from `height` on, and the answer of the first that gives one. */
  function Strided(archive: Archive, nonce: nat, height: nat, period: nat): Result<Option<Attestation>, HistoryError>
    requires period >= 1
  {
    if height < 1 then Err(NotFound)
    else
      match archive(nonce, height)
      case Got(a) => Ok(Some(a))
      case Nothing => Ok(None)
      case Undecodable => Err(DecodeError)
      case RpcError => if height <= period then Err(NotFound) else Strided(archive, nonce, height - period, period)
  }

  /**
   QueryRecursiveHistoricalAttestationByNonce. `patience` is the number of lookups for which
   the 10-minute context lasts.
   */
  method SearchByHeight(archive: Archive, nonce: nat, height: nat, period: nat, patience: nat)
    returns (r: Result<Option<Attestation>, HistoryError>, visited: seq<nat>)
    requires period >= 1
    ensures |visited| <= patience && |visited| <= Strides(height, period)
    ensures r == Err(NotFound) && height >= 1 ==> visited != [] && visited[|visited| - 1] <= period
    ensures forall k | 0 <= k < |visited| :: visited[k] == height - k * period && 1 <= visited[k] <= height
    ensures forall k | 0 <= k < |visited| - 1 :: archive(nonce, visited[k]) == RpcError
    ensures r == Err(ContextDone) || r == Strided(archive, nonce, height, period)
    ensures r == Err(ContextDone) <==> patience < StridedCost(archive, nonce, height, period)
    ensures r == Err(ContextDone) ==> |visited| == patience && patience * period < height
    ensures r != Err(ContextDone) && height >= 1 ==>
              && visited != []
              && r == (match archive(nonce, visited[|visited| - 1])
                       case Got(a) => Ok(Some(a))
                       case Nothing => Ok(None)
                       case Undecodable => Err(DecodeError)
                       case RpcError => Err(NotFound))
    ensures r != Err(ContextDone) ==> |visited| == StridedCost(archive, nonce, height, period)
  {
    hide Strides;
    var currentHeight: nat := height;
    visited := [];
    while currentHeight >= 1
      invariant |visited| + Strides(currentHeight, period) == Strides(height, period)
      invariant |visited| + StridedCost(archive, nonce, currentHeight, period) == StridedCost(archive, nonce, height, period)
      invariant |visited| <= patience
      invariant currentHeight == height - |visited| * period
      invariant forall k | 0 <= k < |visited| ::
                  visited[k] == height - k * period && 1 <= visited[k] <= height && archive(nonce, visited[k]) == RpcError
      invariant Strided(archive, nonce, height, period) == Strided(archive, nonce, currentHeight, period)
      decreases currentHeight
    {
      if |visited| == patience {
        return Err(ContextDone), visited;
      }
      OneStride(currentHeight, period);
      visited := visited + [currentHeight];
      match archive(nonce, currentHeight) {
        case Got(a) => return Ok(Some(a)), visited;
        case Nothing => return Ok(None), visited;
        case Undecodable => return Err(DecodeError), visited;
        case RpcError =>
      }
      if currentHeight <= period {
        return Err(NotFound), visited;
      }
      NextStride(|visited| - 1, period);
      currentHeight := currentHeight - period;
    }
    return Err(NotFound), visited;
  }

  /** How many lookups a search that nothing cuts short makes. */
  function StridedCost(archive: Archive, nonce: nat, height: nat, period: nat): nat
    requires period >= 1
  {
    if height < 1 then 0
    else if archive(nonce, height) == RpcError && height > period then 1 + StridedCost(archive, nonce, height - period, period)
    else 1
  }

  /** How many heights a search from this height can visit. */
  function Strides(height: nat, period: nat): nat
    requires period >= 1
  {
    if height == 0 then 0 else (height - 1) / period + 1
  }

  lemma OneStride(height: nat, period: nat)
    requires period >= 1 && height >= 1
    ensures Strides(height, period) == 1 + if height <= period then 0 else Strides(height - period, period)
  {
    var q, r := (height - 1) / period, (height - 1) % period;
    assert height - 1 == q * period + r;
    if height > period {
      Quotient(height - period - 1, period, q - 1, r);
    } else {
      Quotient(height - 1, period, 0, height - 1);
    }
  }

  lemma Quotient(x: nat, period: nat, q: int, r: nat)
    requires period >= 1 && r < period && x == q * period + r
    ensures x / period == q
  {
    var d := q - x / period;
    assert x == (x / period) * period + x % period;
    assert d * period == x % period - r;
    MultipleOf(d, period);
  }

  /** A multiple of the period is zero or at least one period away from it. */
  lemma MultipleOf(d: int, period: int)
    requires period >= 0
    ensures d >= 1 ==> d * period >= period
    ensures d <= -1 ==> d * period <= -period
  {
    assert d * period == period + (d - 1) * period;
    assert d * period == -period + (d + 1) * period;
  }

  lemma AtMost(a: nat, b: nat, c: nat)
    requires a <= b
    ensures a * c <= b * c
  {
    assert b * c == a * c + (b - a) * c;
  }

  lemma NextStride(k: nat, period: nat)
    ensures (k + 1) * period == k * period + period
  {
  }

  /** What a node that keeps the attestation for a while answers: the attestation, or an error. */
  ghost predicate AnswersOnly(archive: Archive, nonce: nat, att: Attestation) {
    forall h: nat :: archive(nonce, h) in {RpcError, Got(att)}
  }

  /** Striding meets every window of `period` consecutive heights, so it finds what such a window holds. */
  lemma {:induction false} StrideFinds(archive: Archive, nonce: nat, height: nat, period: nat, from: nat, att: Attestation)
    requires 1 <= from <= height && period >= 1
    requires AnswersOnly(archive, nonce, att)
    requires forall h: nat | from <= h < from + period :: archive(nonce, h) == Got(att)
    ensures Strided(archive, nonce, height, period) == Ok(Some(att))
  {
    assert archive(nonce, height) in {RpcError, Got(att)};
    if archive(nonce, height) == RpcError {
      StrideFinds(archive, nonce, height - period, period, from, att);
    }
  }

  /** The constant matters: with a window one height shorter the search can pass it by. */
  lemma ShorterWindowIsMissed(att: Attestation, period: nat)
    requires period >= 2
    ensures var archive := (n: nat, h: nat) => if 1 <= h < period then Got(att) else RpcError;
            Strided(archive, 1, period, period) == Err(NotFound)
  {
  }

  /** The backwards walk over nonces, starting at `current`. */
  function WalkBack(archive: Archive, current: nat, height: nat, period: nat): Result<Valset, HistoryError>
    requires period >= 1
  {
    if current == 0 then Err(NotFound)
    else
      match Strided(archive, current, height, period)
      case Err(e) => Err(e)
      case Ok(Some(ValsetAtt(vs))) => Ok(vs)
      case Ok(_) => WalkBack(archive, current - 1, height, period)
  }

  /** How many lookups the context has to last for the walk to end by itself. */
  function WalkCost(archive: Archive, current: nat, height: nat, period: nat): nat
    requires period >= 1
  {
    if current == 0 then 1
    else
      var cost := StridedCost(archive, current, height, period);
      match Strided(archive, current, height, period)
      case Err(_) => if cost == 0 then 1 else cost
      case Ok(Some(ValsetAtt(_))) => cost
      case Ok(_) => cost + WalkCost(archive, current - 1, height, period)
  }

  /** nonce - 1 in unsigned 64-bit arithmetic. */
  function Predecessor(nonce: nat): nat {
    if nonce == 0 then UINT64_LIMIT - 1 else nonce - 1
  }

  /** QueryRecursiveHistoricalLastValsetBeforeNonce. */
  method SearchLastValsetBefore(archive: Archive, nonce: nat, height: nat, period: nat, patience: nat)
    returns (r: Result<Valset, HistoryError>)
    requires period >= 1
    ensures r == Err(ContextDone) || r == WalkBack(archive, Predecessor(nonce), height, period)
    ensures r == Err(ContextDone) <==> patience < WalkCost(archive, Predecessor(nonce), height, period)
    ensures r == Err(ContextDone) ==> patience <= Predecessor(nonce) * Strides(height, period)
  {
    hide Strides, Predecessor;
    var currentNonce: nat := Predecessor(nonce);
    var remaining: nat := patience;
    ghost var strides := Strides(height, period);
    while true
      invariant currentNonce <= Predecessor(nonce)
      invariant patience - remaining <= (Predecessor(nonce) - currentNonce) * strides
      invariant 0 <= remaining <= patience
      invariant patience - remaining + WalkCost(archive, currentNonce, height, period)
             == WalkCost(archive, Predecessor(nonce), height, period)
      invariant WalkBack(archive, Predecessor(nonce), height, period) == WalkBack(archive, currentNonce, height, period)
      decreases currentNonce
    {
      if remaining == 0 {
        AtMost(Predecessor(nonce) - currentNonce, Predecessor(nonce), strides);
        return Err(ContextDone);
      }
      if currentNonce == 0 {
        return Err(NotFound);
      }
      var n, visited := SearchByHeight(archive, currentNonce, height, period, remaining);
      remaining := remaining - |visited|;
      match n {
        case Err(e) =>
          NextStride(Predecessor(nonce) - currentNonce, strides);
          AtMost(Predecessor(nonce) - currentNonce + 1, Predecessor(nonce), strides);
          return Err(e);
        case Ok(Some(ValsetAtt(vs))) => return Ok(vs);
        case Ok(_) =>
      }
      NextStride(Predecessor(nonce) - currentNonce, strides);
      currentNonce := currentNonce - 1;
    }
  }

  /** An archive of this chain: what it returns is right, and it has a reply for what exists. */
  ghost predicate ArchiveOf(archive: Archive, chain: seq<Attestation>) {
    forall n: nat, h: nat ::
      match archive(n, h)
      case Got(a) => 1 <= n <= |chain| && a == chain[n - 1]
      case Nothing => !(1 <= n <= |chain|)
      case _ => true
  }

  lemma {:induction false} StridedOfArchive(archive: Archive, chain: seq<Attestation>, nonce: nat, height: nat, period: nat)
    requires period >= 1 && ArchiveOf(archive, chain) && Strided(archive, nonce, height, period).Ok?
    ensures Strided(archive, nonce, height, period).value
         == if 1 <= nonce <= |chain| then Some(chain[nonce - 1]) else None
  {
    if archive(nonce, height) == RpcError {
      StridedOfArchive(archive, chain, nonce, height - period, period);
    }
  }

  /** The walk's valset, if it returns one, is the last valset up to its starting nonce. */
  lemma {:induction false} WalkBackIsRight(archive: Archive, chain: seq<Attestation>, current: nat, height: nat, period: nat)
    requires period >= 1 && ArchiveOf(archive, chain)
    requires WalkBack(archive, current, height, period).Ok?
    ensures LastValsetAtMost(chain, current) == Some(WalkBack(archive, current, height, period).value)
  {
    StridedOfArchive(archive, chain, current, height, period);
    if !IsValsetAt(chain, current) {
      WalkBackIsRight(archive, chain, current - 1, height, period);
    }
  }

  /** With everything it meets retrievable, the walk returns exactly the last valset, or that there is none. */
  lemma {:induction false} WalkBackIsComplete(archive: Archive, chain: seq<Attestation>, current: nat, height: nat, period: nat)
    requires period >= 1 && ArchiveOf(archive, chain)
    requires forall n | 1 <= n <= current :: Strided(archive, n, height, period).Ok?
    ensures WalkBack(archive, current, height, period)
         == match LastValsetAtMost(chain, current) case Some(vs) => Ok(vs) case None => Err(NotFound)
  {
    if current > 0 {
      StridedOfArchive(archive, chain, current, height, period);
      WalkBackIsComplete(archive, chain, current - 1, height, period);
    }
  }

  // --- the latest valset ---

  /** The answers, at one height, about the latest nonce, its attestation, and the last valset before it. */
  datatype LatestAnswers = LatestAnswers(latestNonce: Option<nat>, byNonce: Response, before: Option<Valset>)

  /** QueryLatestValset: every failure of the second query is read as "not a valset". */
  function QueryLatestValset(a: LatestAnswers): Option<Valset> {
    match a.latestNonce
    case None => None
    case Some(_) => match a.byNonce case Got(ValsetAtt(vs)) => Some(vs) case _ => a.before
  }

  /** It answers exactly if the latest attestation is had and a valset, or the valset before it is had. */
  lemma LatestValsetAnsweredIff(a: LatestAnswers)
    ensures QueryLatestValset(a).Some?
       <==> a.latestNonce.Some? && ((a.byNonce.Got? && a.byNonce.att.ValsetAtt?) || a.before.Some?)
  {
  }

  /** With every query answered from the chain it is the last valset there is. */
  lemma LatestValsetIsHad(a: LatestAnswers, chain: seq<Attestation>, n: nat)
    requires NumberedFromOne(chain) && 1 <= n <= |chain|
    requires a == LatestAnswers(Some(n), Got(chain[n - 1]), LastValsetBefore(chain, n))
    ensures QueryLatestValset(a).Some? && QueryLatestValset(a) == LastValsetAtMost(chain, n)
  {
    LastValsetExists(chain, n);
  }

  /** The answers at the first height, going back in strides, that give a valset. */
  function StridedLatest(at: nat -> LatestAnswers, height: nat, period: nat): (r: Result<LatestAnswers, HistoryError>)
    requires period >= 1
    ensures r.Ok? ==> r.value.latestNonce.Some? && QueryLatestValset(r.value).Some?
  {
    if height < 1 then Err(NotFound)
    else if at(height).latestNonce.None? then Err(RpcFailed)
    else if QueryLatestValset(at(height)).Some? then Ok(at(height))
    else if height <= period then Err(NotFound)
    else StridedLatest(at, height - period, period)
  }

  /** How many heights a search that nothing cuts short looks at. */
  function LatestCost(at: nat -> LatestAnswers, height: nat, period: nat): nat
    requires period >= 1
  {
    if height < 1 then 0
    else if at(height).latestNonce.Some? && QueryLatestValset(at(height)).None? && height > period
    then 1 + LatestCost(at, height - period, period)
    else 1
  }

  /** QueryRecursiveLatestValset; `patience` is the number of heights for which its context lasts. */
  method SearchLatest(at: nat -> LatestAnswers, height: nat, period: nat, patience: nat)
    returns (r: Result<Valset, HistoryError>)
    requires period >= 1
    ensures r == Err(ContextDone) ||
            r == match StridedLatest(at, height, period)
                 case Err(e) => Err(e)
                 case Ok(a) => Ok(QueryLatestValset(a).value)
    ensures r == Err(ContextDone) <==> patience < LatestCost(at, height, period)
    ensures r == Err(ContextDone) ==> patience * period < height
  {
    var currentHeight: nat := height;
    var lookups: nat := 0;
    while currentHeight >= 1
      invariant lookups <= patience && currentHeight == height - lookups * period
      invariant lookups + LatestCost(at, currentHeight, period) == LatestCost(at, height, period)
      invariant StridedLatest(at, height, period) == StridedLatest(at, currentHeight, period)
      decreases currentHeight
    {
      if lookups == patience {
        return Err(ContextDone);
      }
      var a := at(currentHeight);
      if a.latestNonce.None? {
        return Err(RpcFailed);
      }
      if QueryLatestValset(a).Some? {
        return Ok(QueryLatestValset(a).value);
      }
      if currentHeight <= period {
        return Err(NotFound);
      }
      NextStride(lookups, period);
      lookups, currentHeight := lookups + 1, currentHeight - period;
    }
    return Err(NotFound);
  }

  /** What is answered is true of this chain, whatever the nonce that was the latest at that height. */
  ghost predicate TrueOf(a: LatestAnswers, chain: seq<Attestation>) {
    a.latestNonce.Some? ==>
      var n := a.latestNonce.value;
      && 1 <= n <= |chain|
      && a.byNonce in {RpcError, Undecodable, Nothing, Got(chain[n - 1])}
      && a.before in {None, LastValsetBefore(chain, n)}
  }

  /** The nonce up to which these answers show the last valset. */
  function UpTo(a: LatestAnswers): nat
    requires a.latestNonce.Some?
  {
    if (a.byNonce.Got? && a.byNonce.att.ValsetAtt?) || a.latestNonce.value == 0 then a.latestNonce.value
    else a.latestNonce.value - 1
  }

  lemma AnswersShowLastValset(a: LatestAnswers, chain: seq<Attestation>)
    requires TrueOf(a, chain) && QueryLatestValset(a).Some?
    ensures LastValsetAtMost(chain, UpTo(a)) == QueryLatestValset(a)
  {
  }

  /** What the search returns comes from answers that were given. */
  lemma {:induction false} StridedLatestIsTrue(at: nat -> LatestAnswers, chain: seq<Attestation>, height: nat, period: nat)
    requires period >= 1 && StridedLatest(at, height, period).Ok?
    requires forall h: nat :: TrueOf(at(h), chain)
    ensures var a := StridedLatest(at, height, period).value;
            TrueOf(a, chain) && LastValsetAtMost(chain, UpTo(a)) == QueryLatestValset(a)
  {
    if QueryLatestValset(at(height)).None? {
      StridedLatestIsTrue(at, chain, height - period, period);
    }
  }

  /** It finds what every height of some window of `period` heights can answer. */
  lemma {:induction false} StridedLatestFinds(at: nat -> LatestAnswers, height: nat, period: nat, from: nat)
    requires 1 <= from <= height && period >= 1
    requires forall h: nat | h <= height :: at(h).latestNonce.Some?
    requires forall h: nat | from <= h < from + period && h <= height :: QueryLatestValset(at(h)).Some?
    ensures StridedLatest(at, height, period).Ok?
  {
    if QueryLatestValset(at(height)).None? {
      StridedLatestFinds(at, height - period, period, from);
    }
  }

  /**
   The latest valset is right unless the latest attestation is a valset and the query for it
   failed.
   */
  lemma LatestValsetIff(a: LatestAnswers, chain: seq<Attestation>)
    requires NumberedFromOne(chain) && TrueOf(a, chain) && QueryLatestValset(a).Some?
    ensures QueryLatestValset(a) == LastValsetAtMost(chain, a.latestNonce.value)
       <==> !(chain[a.latestNonce.value - 1].ValsetAtt? && !a.byNonce.Got?)
  {
    var n := a.latestNonce.value;
    if chain[n - 1].ValsetAtt? && !a.byNonce.Got? {
      var m := LastValsetPosition(chain, n - 1);
      assert chain[m - 1].Nonce() == m;
    }
  }

  /** So it is wrong for two valsets, if the second is issued and the query for it fails. */
  lemma LatestValsetCanBeStale(first: Valset, second: Valset)
    requires first.nonce == 1 && second.nonce == 2
    ensures var chain, a := [ValsetAtt(first), ValsetAtt(second)], LatestAnswers(Some(2), RpcError, Some(first));
            && NumberedFromOne(chain) && TrueOf(a, chain)
            && QueryLatestValset(a) == Some(first) && LastValsetAtMost(chain, 2) == Some(second)
  {
    var chain := [ValsetAtt(first), ValsetAtt(second)];
    assert IsValsetAt(chain, 1) && IsValsetAt(chain, 2);
    assert LastValsetAtMost(chain, 1) == Some(first);
  }
}
