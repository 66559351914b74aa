/** The relayer's store of the signatures it has used (relayer.go, the two Save functions). */
module SignatureStore {
  import opened Wrappers
  import opened Keys
  import opened Types
  import opened Quorum

  datatype StoreError = BatchFailed | HasFailed | PutFailed | CommitFailed

  /** At which confirm, if at any, the datastore reports an error, and whether the commit does. */
  datatype StoreFaults = StoreFaults(batch: bool, has: set<nat>, put: set<nat>, commit: bool)

  /** The batch after the given confirms: what is not stored yet, the last of equal keys winning. */
  function Fresh(stored: map<string, Confirm>, subject: Subject, confirms: seq<Confirm>): map<string, Confirm> {
    if confirms == [] then map[]
    else
      var c := confirms[|confirms| - 1];
      var before := Fresh(stored, subject, confirms[..|confirms| - 1]);
      if subject.Key(c.ethAddress) in stored then before else before[subject.Key(c.ethAddress) := c]
  }

  class Store {
    var stored: map<string, Confirm>

    constructor ()
      ensures stored == map[]
    {
      stored := map[];
    }

    /** SaveValsetSignaturesToStore and SaveDataCommitmentSignaturesToStore. */
    method Save(subject: Subject, confirms: seq<Confirm>, faults: StoreFaults) returns (err: Option<StoreError>)
      modifies this
      ensures err.None? ==> stored == old(stored) + Fresh(old(stored), subject, confirms)
      ensures err.Some? ==> stored == old(stored)
      ensures err.None? <==> !faults.batch && !faults.commit
                             && forall i | 0 <= i < |confirms| ::
                                  i !in faults.has && (subject.Key(confirms[i].ethAddress) !in old(stored) ==> i !in faults.put)
    {
      if faults.batch {
        return Some(BatchFailed);
      }
      var batch: map<string, Confirm> := map[];
      for i := 0 to |confirms|
        invariant batch == Fresh(stored, subject, confirms[..i])
        invariant forall j | 0 <= j < i ::
                    j !in faults.has && (subject.Key(confirms[j].ethAddress) !in stored ==> j !in faults.put)
      {
        assert confirms[..i + 1][..i] == confirms[..i];
        var key := subject.Key(confirms[i].ethAddress);
        if i in faults.has {
          return Some(HasFailed);
        }
        if key !in stored {
          if i in faults.put {
            return Some(PutFailed);
          }
          batch := batch[key := confirms[i]];
        }
      }
      assert confirms[..|confirms|] == confirms;
      if faults.commit {
        return Some(CommitFailed);
      }
      stored := stored + batch;
      return None;
    }
  }

  /** The batch holds exactly the supplied keys that are not stored, each with a confirm supplied for it. */
  lemma {:induction false} FreshKeys(stored: map<string, Confirm>, subject: Subject, confirms: seq<Confirm>, key: string)
    ensures key in Fresh(stored, subject, confirms) <==>
            key !in stored && exists c :: c in confirms && subject.Key(c.ethAddress) == key
    ensures key in Fresh(stored, subject, confirms) ==>
            var c := Fresh(stored, subject, confirms)[key]; c in confirms && subject.Key(c.ethAddress) == key
  {
    if confirms != [] {
      var n := |confirms| - 1;
      FreshKeys(stored, subject, confirms[..n], key);
      assert confirms == confirms[..n] + [confirms[n]];
      assert confirms[n] in confirms;
    }
  }

  /** Of several confirms for one key it has the last. */
  lemma {:induction false} FreshIsLast(stored: map<string, Confirm>, subject: Subject, confirms: seq<Confirm>, i: nat)
    requires i < |confirms| && subject.Key(confirms[i].ethAddress) !in stored
    requires forall j | i < j < |confirms| :: subject.Key(confirms[j].ethAddress) != subject.Key(confirms[i].ethAddress)
    ensures var key := subject.Key(confirms[i].ethAddress);
            key in Fresh(stored, subject, confirms) && Fresh(stored, subject, confirms)[key] == confirms[i]
  {
    var n := |confirms| - 1;
    if i < n {
      FreshIsLast(stored, subject, confirms[..n], i);
    }
  }

  /** A save that succeeded, as a transition of the stored map. */
  function AfterSave(stored: map<string, Confirm>, save: (Subject, seq<Confirm>)): map<string, Confirm> {
    stored + Fresh(stored, save.0, save.1)
  }

  function AfterSaves(stored: map<string, Confirm>, saves: seq<(Subject, seq<Confirm>)>): map<string, Confirm> {
    if saves == [] then stored else AfterSave(AfterSaves(stored, saves[..|saves| - 1]), saves[|saves| - 1])
  }

  /** Over every sequence of saves: a stored value never changes, and every supplied confirm's key ends up stored. */
  lemma {:induction false} WriteOnce(stored: map<string, Confirm>, saves: seq<(Subject, seq<Confirm>)>)
    ensures forall key | key in stored :: key in AfterSaves(stored, saves) && AfterSaves(stored, saves)[key] == stored[key]
    ensures forall i, c | 0 <= i < |saves| && c in saves[i].1 :: saves[i].0.Key(c.ethAddress) in AfterSaves(stored, saves)
  {
    if saves != [] {
      hide Fresh, Subject.Key;
      var n := |saves| - 1;
      WriteOnce(stored, saves[..n]);
      var mid := AfterSaves(stored, saves[..n]);
      forall key | key in mid ensures key !in Fresh(mid, saves[n].0, saves[n].1) {
        FreshKeys(mid, saves[n].0, saves[n].1, key);
      }
      forall i, c | 0 <= i < |saves| && c in saves[i].1
        ensures saves[i].0.Key(c.ethAddress) in AfterSaves(stored, saves)
      {
        if i < n {
          assert saves[..n][i] == saves[i];
        } else {
          FreshKeys(mid, saves[n].0, saves[n].1, saves[n].0.Key(c.ethAddress));
        }
      }
    }
  }

  /** Entries for different subjects or signers have different keys. */
  lemma EntriesNeverCollide(s1: Subject, a1: string, s2: Subject, a2: string)
    requires CleanField(a1) && CleanField(a2) && CleanField(s1.digest) && CleanField(s2.digest)
    requires s1.Key(a1) == s2.Key(a2)
    ensures s1 == s2 && a1 == a2
  {
    KeysNeverCollide(s1.kind, s1.nonce, a1, s1.digest, s2.kind, s2.nonce, a2, s2.digest);
  }
}
