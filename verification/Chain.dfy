/** The attestations a Celestia chain has issued: nonce n is at position n-1, and nonce 1 is a valset. */
module Chain {
  import opened Wrappers
  import opened Types

  predicate NumberedFromOne(chain: seq<Attestation>) {
    && (forall i | 0 <= i < |chain| :: chain[i].Nonce() == i + 1)
    && (chain != [] ==> chain[0].ValsetAtt?)
  }

  predicate IsValsetAt(chain: seq<Attestation>, n: nat) {
    1 <= n <= |chain| && chain[n - 1].ValsetAtt?
  }

  /** The valset with the greatest nonce up to n. */
  function LastValsetAtMost(chain: seq<Attestation>, n: nat): Option<Valset> {
    if n == 0 then None
    else if IsValsetAt(chain, n) then Some(chain[n - 1].valset)
    else LastValsetAtMost(chain, n - 1)
  }

  function LastValsetBefore(chain: seq<Attestation>, n: nat): Option<Valset> {
    if n == 0 then None else LastValsetAtMost(chain, n - 1)
  }

  lemma {:induction false} LastValsetIsGreatest(chain: seq<Attestation>, n: nat, m: nat)
    requires IsValsetAt(chain, m) && m <= n
    requires forall j | m < j <= n :: !IsValsetAt(chain, j)
    ensures LastValsetAtMost(chain, n) == Some(chain[m - 1].valset)
  {
    if m < n {
      LastValsetIsGreatest(chain, n - 1, m);
    }
  }

  lemma {:induction false} LastValsetPosition(chain: seq<Attestation>, n: nat) returns (m: nat)
    requires LastValsetAtMost(chain, n).Some?
    ensures m <= n && IsValsetAt(chain, m) && LastValsetAtMost(chain, n) == Some(chain[m - 1].valset)
    ensures forall j | m < j <= n :: !IsValsetAt(chain, j)
  {
    if IsValsetAt(chain, n) {
      m := n;
    } else {
      m := LastValsetPosition(chain, n - 1);
    }
  }

  lemma {:induction false} LastValsetExists(chain: seq<Attestation>, n: nat)
    requires NumberedFromOne(chain) && 1 <= n && chain != []
    ensures LastValsetAtMost(chain, n).Some?
  {
    if n > 1 {
      LastValsetExists(chain, n - 1);
    }
  }

  /** New attestations do not change what was the last valset up to an old nonce. */
  lemma {:induction false} LastValsetStable(chain: seq<Attestation>, longer: seq<Attestation>, n: nat)
    requires chain <= longer && n <= |chain|
    ensures LastValsetAtMost(longer, n) == LastValsetAtMost(chain, n)
  {
    if n > 0 {
      LastValsetStable(chain, longer, n - 1);
    }
  }
}
