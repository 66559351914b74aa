/**
 waitForTransactionAndRetryIfNeeded (relayer.go): waiting for a transaction and sending it
 again with a higher fee.
 */
module SpeedUp {
  import opened Wrappers

  /** A transaction; which fee fields are set depends on its kind. */
  datatype Transaction = Transaction(
    nonce: nat,
    gas: nat,
    to: string,
    value: nat,
    data: string,
    gasPrice: Option<nat>,
    gasTipCap: Option<nat>,
    gasFeeCap: Option<nat>
  )

  datatype WaitResult = Mined | DeadlineExceeded | OtherError

  /** What one turn of the loop meets, should it get that far. */
  datatype Turn = Turn(
    wait: WaitResult,
    suggestedPrice: Option<nat>,
    suggestedTip: Option<nat>,
    header: Option<Option<nat>>,
    signed: bool
  )

  datatype WaitError = WaitFailed | QueryFailed | TipAboveCap | SigningFailed | StillPending

  datatype Verdict = Resend(tx: Transaction) | NoNeed | Abort(error: WaitError)

  const MAX_TURNS := 10

  /** The legacy copy with a new price, unless the price is no higher than the original's. */
  function SpeedUpLegacy(tx: Transaction, turn: Turn): Verdict {
    match turn.suggestedPrice
    case None => Abort(QueryFailed)
    case Some(price) =>
      if price <= Fee(tx) then NoNeed
      else Resend(Transaction(tx.nonce, tx.gas, tx.to, tx.value, tx.data, Some(price), None, None))
  }

  /** The dynamic-fee copy: the cap is the tip plus twice the base fee. */
  function SpeedUpDynamic(tx: Transaction, turn: Turn): Verdict {
    match (turn.suggestedTip, turn.header)
    case (Some(tip), Some(Some(baseFee))) =>
      if tip + 2 * baseFee < tip then Abort(TipAboveCap)
      else if tip + 2 * baseFee <= Fee(tx) then NoNeed
      else Resend(Transaction(tx.nonce, tx.gas, tx.to, tx.value, tx.data, None, Some(tip), Some(tip + 2 * baseFee)))
    case _ => Abort(QueryFailed)
  }

  /** The price, or the cap of a dynamic-fee transaction. */
  function Fee(tx: Transaction): nat {
    if tx.gasPrice.Some? then tx.gasPrice.value else if tx.gasFeeCap.Some? then tx.gasFeeCap.value else 0
  }

  /** What is done about a transaction that was not mined in time. */
  function Decide(tx: Transaction, turn: Turn): Verdict {
    var verdict :=
      if tx.gasPrice.Some? then SpeedUpLegacy(tx, turn)
      else if tx.gasTipCap.Some? && tx.gasFeeCap.Some? then SpeedUpDynamic(tx, turn)
      else match turn.header
           case None => Abort(QueryFailed)
           case Some(Some(_)) => SpeedUpDynamic(tx, turn)
           case Some(None) => SpeedUpLegacy(tx, turn);
    if verdict.Resend? && !turn.signed then Abort(SigningFailed) else verdict
  }

  /** The same transaction in everything but its fee, which is higher. */
  ghost predicate Replaces(resent: Transaction, tx: Transaction) {
    && resent.nonce == tx.nonce && resent.gas == tx.gas && resent.to == tx.to
    && resent.value == tx.value && resent.data == tx.data
    && Fee(resent) > Fee(tx)
  }

  /** Whether the copy would be a legacy transaction. */
  predicate Legacy(tx: Transaction, turn: Turn) {
    tx.gasPrice.Some? || ((tx.gasTipCap.None? || tx.gasFeeCap.None?) && turn.header == Some(None))
  }

  /** The fee that the node suggests in this turn, if it gives all that this takes. */
  function Suggested(tx: Transaction, turn: Turn): Option<nat> {
    if Legacy(tx, turn) then turn.suggestedPrice
    else match (turn.suggestedTip, turn.header)
         case (Some(tip), Some(Some(baseFee))) => Some(tip + 2 * baseFee)
         case _ => None
  }

  /** The wait was in vain, and the suggestion was had; either it calls for no copy, or the copy was signed. */
  predicate GoesOn(tx: Transaction, turn: Turn) {
    && turn.wait.DeadlineExceeded? && Suggested(tx, turn).Some?
    && (Suggested(tx, turn).value <= Fee(tx) || turn.signed)
  }

  /** Apart from a copy that is resent, the loop goes on without one or ends in an error of the query or the signer. */
  lemma DecidesIff(tx: Transaction, turn: Turn)
    ensures Decide(tx, turn) == NoNeed <==> Suggested(tx, turn).Some? && Suggested(tx, turn).value <= Fee(tx)
    ensures Decide(tx, turn) == Abort(QueryFailed) <==> Suggested(tx, turn).None?
    ensures Decide(tx, turn) == Abort(SigningFailed)
       <==> Suggested(tx, turn).Some? && Suggested(tx, turn).value > Fee(tx) && !turn.signed
    ensures Decide(tx, turn).Abort? ==> Decide(tx, turn).error in {QueryFailed, SigningFailed}
  {
  }

  /** The turn's wait was in vain, its suggestion exceeds the first fee, and the copy could be signed. */
  predicate Outbids(tx: Transaction, turn: Turn) {
    && turn.wait.DeadlineExceeded? && turn.signed
    && Suggested(tx, turn).Some? && Suggested(tx, turn).value > Fee(tx)
  }

  /** A turn resends exactly if it outbids the first transaction; the copy then has the fee suggested. */
  lemma ResendsIff(tx: Transaction, turn: Turn)
    requires turn.wait.DeadlineExceeded?
    ensures Decide(tx, turn).Resend? <==> Outbids(tx, turn)
    ensures Outbids(tx, turn) ==>
              var resent := Decide(tx, turn).tx;
              && Replaces(resent, tx) && Fee(resent) == Suggested(tx, turn).value
              && if Legacy(tx, turn)
                 then resent.gasPrice == turn.suggestedPrice && resent.gasTipCap == resent.gasFeeCap == None
                 else resent.gasPrice == None && resent.gasTipCap == turn.suggestedTip && resent.gasFeeCap == Suggested(tx, turn)
  {
  }

  /** What the turns resend, in order. */
  function Resent(tx: Transaction, turns: seq<Turn>): seq<Transaction> {
    if turns == [] then []
    else
      var before, last := Resent(tx, turns[..|turns| - 1]), turns[|turns| - 1];
      if last.wait.DeadlineExceeded? && Decide(tx, last).Resend? then before + [Decide(tx, last).tx] else before
  }

  /** From this turn on, the first transaction is not mined. */
  predicate NotMinedFrom(turns: seq<Turn>, k: nat) {
    forall i | k <= i < |turns| :: !turns[i].wait.Mined?
  }

  /**
   The loop, with what it waited for and what it sent. The error of sending is dropped, and
   the transaction waited for is never replaced: if a resent one is mined instead, so that
   from some turn on the first cannot be, then the result is an error.
   */
  method WaitAndRetry(tx: Transaction, turns: seq<Turn>)
    returns (err: Option<WaitError>, waited: seq<Transaction>, resent: seq<Transaction>)
    requires |turns| == MAX_TURNS
    ensures 1 <= |waited| <= MAX_TURNS && |resent| <= |waited|
    ensures forall w | w in waited :: w == tx
    ensures forall t | t in resent :: Replaces(t, tx)
    ensures resent == Resent(tx, turns[..|waited|])
    ensures forall i | 0 <= i < |waited| - 1 :: GoesOn(tx, turns[i])
    ensures err.None? <==> turns[|waited| - 1].wait.Mined?
    ensures forall k | 0 <= k < |waited| && NotMinedFrom(turns, k) :: err.Some?
    ensures err == Some(StillPending) <==> |waited| == MAX_TURNS && GoesOn(tx, turns[MAX_TURNS - 1])
    ensures err.Some? && err != Some(StillPending) ==>
              var last := turns[|waited| - 1];
              && !GoesOn(tx, last)
              && err == Some(if last.wait.OtherError? then WaitFailed
                             else if Suggested(tx, last).None? then QueryFailed else SigningFailed)
  {
    hide Decide, Suggested, Replaces;
    waited, resent := [], [];
    for i := 0 to MAX_TURNS
      invariant |waited| == i && |resent| <= i
      invariant forall w | w in waited :: w == tx
      invariant forall t | t in resent :: Replaces(t, tx)
      invariant forall j | 0 <= j < i :: GoesOn(tx, turns[j])
      invariant resent == Resent(tx, turns[..i])
    {
      assert turns[..i + 1][..i] == turns[..i];
      waited := waited + [tx];
      match turns[i].wait {
        case Mined => return None, waited, resent;
        case OtherError => return Some(WaitFailed), waited, resent;
        case DeadlineExceeded =>
      }
      var verdict := Decide(tx, turns[i]);
      DecidesIff(tx, turns[i]);
      match verdict {
        case Abort(e) => return Some(e), waited, resent;
        case NoNeed => continue;
        case Resend(rawTx) =>
          ResendsIff(tx, turns[i]);
          resent := resent + [rawTx];
      }
    }
    assert turns[..MAX_TURNS] == turns;
    return Some(StillPending), waited, resent;
  }

  ghost predicate FeesRise(txs: seq<Transaction>) {
    forall i, j | 0 <= i < j < |txs| :: Fee(txs[i]) < Fee(txs[j])
  }

  /** Among the turns that outbid the first transaction, each suggests more than those before it. */
  ghost predicate SuggestionsRise(tx: Transaction, turns: seq<Turn>) {
    forall i, j | 0 <= i < j < |turns| && Outbids(tx, turns[i]) && Outbids(tx, turns[j]) ::
      Suggested(tx, turns[i]).value < Suggested(tx, turns[j]).value
  }

  /** The fee of a resend is a suggestion of a turn that outbids, and the other way round. */
  lemma {:induction false} ResentFees(tx: Transaction, turns: seq<Turn>)
    ensures forall t | t in Resent(tx, turns) :: Replaces(t, tx)
    ensures forall t | t in Resent(tx, turns) ::
              exists i :: 0 <= i < |turns| && Outbids(tx, turns[i]) && Suggested(tx, turns[i]).value == Fee(t)
    ensures forall i | 0 <= i < |turns| && Outbids(tx, turns[i]) ::
              exists t :: t in Resent(tx, turns) && Suggested(tx, turns[i]).value == Fee(t)
  {
    hide Decide, Suggested, Replaces;
    if turns != [] {
      var n := |turns| - 1;
      var before := turns[..n];
      ResentFees(tx, before);
      assert forall i | 0 <= i < n :: before[i] == turns[i];
      if turns[n].wait.DeadlineExceeded? {
        ResendsIff(tx, turns[n]);
      }
      forall t | t in Resent(tx, turns)
        ensures exists i :: 0 <= i < |turns| && Outbids(tx, turns[i]) && Suggested(tx, turns[i]).value == Fee(t)
      {
        if t in Resent(tx, before) {
          var i :| 0 <= i < n && Outbids(tx, before[i]) && Suggested(tx, before[i]).value == Fee(t);
          assert Outbids(tx, turns[i]);
        } else {
          assert Outbids(tx, turns[n]);
        }
      }
    }
  }

  /** A bound on the fees resent so far is one on the suggestions so far. */
  lemma BoundedAlike(tx: Transaction, turns: seq<Turn>, bound: nat)
    ensures (forall t | t in Resent(tx, turns) :: Fee(t) < bound)
       <==> forall i | 0 <= i < |turns| && Outbids(tx, turns[i]) :: Suggested(tx, turns[i]).value < bound
  {
    hide Resent, Suggested, Replaces;
    ResentFees(tx, turns);
  }

  lemma SuggestionsRiseStep(tx: Transaction, turns: seq<Turn>)
    requires turns != []
    ensures var n := |turns| - 1;
            SuggestionsRise(tx, turns) <==>
              && SuggestionsRise(tx, turns[..n])
              && (Outbids(tx, turns[n]) ==>
                    forall i | 0 <= i < n && Outbids(tx, turns[i]) :: Suggested(tx, turns[i]).value < Suggested(tx, turns[n]).value)
  {
    hide Suggested;
    var n := |turns| - 1;
    assert forall i | 0 <= i < n :: turns[..n][i] == turns[i];
  }

  lemma FeesRiseStep(tx: Transaction, turns: seq<Turn>)
    requires turns != []
    ensures var n := |turns| - 1;
            FeesRise(Resent(tx, turns)) <==>
              && FeesRise(Resent(tx, turns[..n]))
              && (Outbids(tx, turns[n]) ==> forall t | t in Resent(tx, turns[..n]) :: Fee(t) < Suggested(tx, turns[n]).value)
  {
    hide Decide, Suggested, Replaces;
    var last := turns[|turns| - 1];
    var r, longer := Resent(tx, turns[..|turns| - 1]), Resent(tx, turns);
    if last.wait.DeadlineExceeded? {
      ResendsIff(tx, last);
    }
    if Outbids(tx, last) {
      assert longer == r + [Decide(tx, last).tx];
      assert forall i | 0 <= i < |r| :: longer[i] == r[i];
      if FeesRise(longer) {
        forall t | t in r ensures Fee(t) < Suggested(tx, last).value {
          var i :| 0 <= i < |r| && r[i] == t;
          assert Fee(longer[i]) < Fee(longer[|r|]);
        }
      }
    }
  }

  /**
   All resends are compared with the first transaction only. So each is offered at a higher fee
   than the one before it exactly when the suggestions happen to rise.
   */
  lemma {:induction false} ResendsRiseIff(tx: Transaction, turns: seq<Turn>)
    ensures FeesRise(Resent(tx, turns)) <==> SuggestionsRise(tx, turns)
  {
    if turns != [] {
      hide Resent, Suggested, FeesRise, SuggestionsRise;
      var n := |turns| - 1;
      ResendsRiseIff(tx, turns[..n]);
      FeesRiseStep(tx, turns);
      SuggestionsRiseStep(tx, turns);
      if Outbids(tx, turns[n]) {
        BoundedAlike(tx, turns[..n], Suggested(tx, turns[n]).value);
        assert forall i | 0 <= i < n :: turns[..n][i] == turns[i];
      }
    }
  }

  /** Later resends need not outbid earlier ones. */
  lemma ResendsMayFall(tx: Transaction, high: Turn, low: Turn)
    requires tx.gasPrice == Some(10)
    requires high == Turn(DeadlineExceeded, Some(20), None, None, true)
    requires low == Turn(DeadlineExceeded, Some(15), None, None, true)
    ensures |Resent(tx, [high, low])| == 2 && !FeesRise(Resent(tx, [high, low]))
  {
    var turns := [high, low];
    assert turns[..1] == [high] && [high][..0] == [];
    assert Resent(tx, [high]) == [Decide(tx, high).tx];
    assert Outbids(tx, turns[0]) && Outbids(tx, turns[1]);
    ResendsRiseIff(tx, turns);
  }
}
