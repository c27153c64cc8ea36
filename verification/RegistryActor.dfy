/** The `Registry` object: API actions against the database. Each action is one step, taken when the
    syncer reports that it is synced. */
module RegistryActor {
  import opened Primitives
  import opened MemoryDb
  import opened Batches

  datatype ApiResult<+T> = Success(value: T) | BadRequest

  type Lookahead = map<u64, RegistryEntry>

  /** The last duty up to `n` in the given slot that has an entry, found through its key. */
  ghost function EntryAt(st: DbState, duties: seq<ProposerDuty>, slot: u64): Option<RegistryEntry> {
    if duties == [] then None
    else
      var n := |duties| - 1;
      if duties[n].slot == slot && LookupPubkey(st, duties[n].publicKey).Some?
      then LookupPubkey(st, duties[n].publicKey)
      else EntryAt(st, duties[..n], slot)
  }

  ghost predicate DistinctSlots(duties: seq<ProposerDuty>) {
    forall i, j :: 0 <= i < j < |duties| ==> duties[i].slot != duties[j].slot
  }

  /** With one duty per slot, a slot has an entry exactly when the validator on duty is registered
      with a known operator, and the entry is that validator's own. */
  lemma {:induction false} EntryAtDuty(st: DbState, duties: seq<ProposerDuty>, i: nat)
    requires DistinctSlots(duties) && i < |duties|
    ensures EntryAt(st, duties, duties[i].slot) == LookupPubkey(st, duties[i].publicKey)
  {
    var n := |duties| - 1;
    if i < n {
      assert forall j :: 0 <= j < n ==> duties[..n][j] == duties[j];
      EntryAtDuty(st, duties[..n], i);
    } else {
      NoEntryElsewhere(st, duties[..n], duties[i].slot);
    }
  }

  /** Of several duties in a slot, the last one with an entry counts. */
  lemma {:induction false} EntryAtIff(st: DbState, duties: seq<ProposerDuty>, slot: u64, e: RegistryEntry)
    ensures EntryAt(st, duties, slot) == Some(e) <==> exists i :: IsLastEntry(st, duties, slot, e, i)
  {
    if duties != [] {
      var n := |duties| - 1;
      var front := duties[..n];
      assert forall i :: 0 <= i < n ==> front[i] == duties[i];
      EntryAtIff(st, front, slot, e);
      LookupPubkeyIff(st, duties[n].publicKey, e);
      HasEntryIff(st, duties[n].publicKey);
      if duties[n].slot == slot && HasEntry(st, duties[n].publicKey) {
        assert IsLastEntry(st, duties, slot, e, n) <==> LookupPubkey(st, duties[n].publicKey) == Some(e);
        assert forall i :: IsLastEntry(st, duties, slot, e, i) ==> i == n;
      } else {
        assert EntryAt(st, duties, slot) == EntryAt(st, front, slot);
        assert forall i :: IsLastEntry(st, front, slot, e, i) ==> IsLastEntry(st, duties, slot, e, i);
        assert forall i :: IsLastEntry(st, duties, slot, e, i) ==> IsLastEntry(st, front, slot, e, i);
      }
    }
  }

  ghost predicate IsLastEntry(st: DbState, duties: seq<ProposerDuty>, slot: u64, e: RegistryEntry, i: nat) {
    && i < |duties| && duties[i].slot == slot && EntryOf(st, duties[i].publicKey, e)
    && forall j :: i < j < |duties| && duties[j].slot == slot ==> !HasEntry(st, duties[j].publicKey)
  }

  ghost predicate HasEntry(st: DbState, k: BlsPublicKey) {
    k in st.registrations && st.registrations[k].operator in st.operators
  }

  lemma HasEntryIff(st: DbState, k: BlsPublicKey)
    ensures HasEntry(st, k) <==> LookupPubkey(st, k).Some?
  {
  }

  lemma {:induction false} NoEntryElsewhere(st: DbState, duties: seq<ProposerDuty>, slot: u64)
    requires forall i :: 0 <= i < |duties| ==> duties[i].slot != slot
    ensures EntryAt(st, duties, slot) == None
  {
    if duties != [] {
      NoEntryElsewhere(st, duties[..|duties| - 1], slot);
    }
  }

  function Keys(duties: seq<ProposerDuty>): (r: seq<BlsPublicKey>)
    ensures |r| == |duties| && forall i :: 0 <= i < |r| ==> r[i] == duties[i].publicKey
  {
    seq(|duties|, i requires 0 <= i < |duties| => duties[i].publicKey)
  }

  /** `iter().find(..)`: the first entry for a key. */
  method FindEntry(entries: seq<RegistryEntry>, k: BlsPublicKey) returns (r: Option<RegistryEntry>)
    ensures r.Some? ==> r.value in entries && r.value.validatorPubkey == k
    ensures r.None? ==> forall e :: e in entries ==> e.validatorPubkey != k
  {
    for i := 0 to |entries|
      invariant forall j :: 0 <= j < i ==> entries[j].validatorPubkey != k
    {
      if entries[i].validatorPubkey == k {
        return Some(entries[i]);
      }
    }
    return None;
  }

  class Registry {
    const db: InMemoryDb

    constructor (db: InMemoryDb)
      ensures this.db == db
    {
      this.db := db;
    }

    /** `validators` is the beacon node's answer for the batch's keys. */
    method RegisterValidators(batch: RegistrationBatch, validators: seq<ValidatorSummary>) returns (r: ApiResult<()>)
      requires db.Valid()
      modifies db
      ensures db.Valid()
      ensures r == if |IndexMap(validators)| == |batch.validatorPubkeys| then Success(()) else BadRequest
      ensures r.BadRequest? ==> db.View() == old(db.View())
      ensures r.Success? ==>
                var items := IntoItems(batch, IndexMap(validators));
                db.View() == old(db.View()).(
                  registrations := WriteRegistrations(old(db.registrations), items),
                  indexToPubkey := WriteIndex(old(db.indexToPubkey), items))
    {
      var count := |batch.validatorPubkeys|;
      var indexMap := IndexMap(validators);
      if |indexMap| != count {
        return BadRequest;
      }
      db.RegisterValidators(IntoItems(batch, indexMap));
      return Success(());
    }

    method DeregisterValidators(batch: DeregistrationBatch)
      requires db.Valid()
      modifies db
      ensures db.Valid()
      ensures db.View() == old(db.View()).(registrations := old(db.registrations) - Pubkeys(DeregistrationItems(batch)))
      ensures forall k :: k in db.registrations <==>
                && k in old(db.registrations)
                && forall i :: 0 <= i < |batch.validatorPubkeys| && i < |batch.signatures| ==> batch.validatorPubkeys[i] != k
    {
      db.DeregisterValidators(DeregistrationItems(batch));
    }

    /** `duties` is the beacon node's answer for the epoch. */
    method GetLookahead(duties: seq<ProposerDuty>) returns (lookahead: Lookahead)
      requires db.Valid()
      ensures forall slot :: (slot in lookahead <==> EntryAt(db.View(), duties, slot).Some?)
                && (slot in lookahead ==> lookahead[slot] == EntryAt(db.View(), duties, slot).value)
      ensures DistinctSlots(duties) ==> LookaheadOf(db.View(), duties, lookahead)
    {
      var entries := db.GetValidatorsByPubkey(Keys(duties));
      lookahead := map[];
      for i := 0 to |duties|
        invariant forall slot :: (slot in lookahead <==> EntryAt(db.View(), duties[..i], slot).Some?)
                    && (slot in lookahead ==> lookahead[slot] == EntryAt(db.View(), duties[..i], slot).value)
      {
        assert duties[..i + 1][..i] == duties[..i];
        var entry := FindEntry(entries, duties[i].publicKey);
        FoundIsLookup(db, duties, i, entries, entry);
        if entry.Some? {
          lookahead := lookahead[duties[i].slot := entry.value];
        }
      }
      assert duties[..|duties|] == duties;
      if DistinctSlots(duties) {
        LookaheadIsJoin(db.View(), duties, lookahead);
      }
    }
  }

  /** With one duty per slot: a slot is in the lookahead exactly when the validator on duty there is
      registered with a known operator, and then with that validator's own entry. */
  ghost predicate LookaheadOf(st: DbState, duties: seq<ProposerDuty>, lookahead: Lookahead) {
    && (forall slot :: slot in lookahead <==>
          exists i :: 0 <= i < |duties| && duties[i].slot == slot && HasEntry(st, duties[i].publicKey))
    && (forall i :: 0 <= i < |duties| && HasEntry(st, duties[i].publicKey) ==>
          duties[i].slot in lookahead && EntryOf(st, duties[i].publicKey, lookahead[duties[i].slot]))
  }

  lemma LookaheadIsJoin(st: DbState, duties: seq<ProposerDuty>, lookahead: Lookahead)
    requires DistinctSlots(duties)
    requires forall slot :: (slot in lookahead <==> EntryAt(st, duties, slot).Some?)
                && (slot in lookahead ==> lookahead[slot] == EntryAt(st, duties, slot).value)
    ensures LookaheadOf(st, duties, lookahead)
  {
    forall i | 0 <= i < |duties| && HasEntry(st, duties[i].publicKey)
      ensures duties[i].slot in lookahead && EntryOf(st, duties[i].publicKey, lookahead[duties[i].slot])
    {
      EntryAtDuty(st, duties, i);
      HasEntryIff(st, duties[i].publicKey);
      LookupPubkeyIff(st, duties[i].publicKey, lookahead[duties[i].slot]);
    }
    forall slot | slot in lookahead
      ensures exists i :: 0 <= i < |duties| && duties[i].slot == slot && HasEntry(st, duties[i].publicKey)
    {
      EntryAtIff(st, duties, slot, lookahead[slot]);
    }
  }

  /** The entry found for a duty among the fetched entries is the database's answer for its key,
      although the fetched list repeats the entry of a validator with several duties. */
  lemma FoundIsLookup(db: InMemoryDb, duties: seq<ProposerDuty>, i: nat, entries: seq<RegistryEntry>, found: Option<RegistryEntry>)
    requires db.Valid() && i < |duties|
    requires entries == db.GetValidatorsByPubkey(Keys(duties))
    requires found.Some? ==> found.value in entries && found.value.validatorPubkey == duties[i].publicKey
    requires found.None? ==> forall e :: e in entries ==> e.validatorPubkey != duties[i].publicKey
    ensures found == LookupPubkey(db.View(), duties[i].publicKey)
  {
    var st, k := db.View(), duties[i].publicKey;
    var lookup := ByPubkey(st);
    if found.Some? {
      FilterMapMembers(lookup, Keys(duties), found.value);
      var j :| 0 <= j < |duties| && LookupPubkey(st, Keys(duties)[j]) == Some(found.value);
    } else if LookupPubkey(st, k).Some? {
      FilterMapMembers(lookup, Keys(duties), LookupPubkey(st, k).value);
      assert lookup(Keys(duties)[i]) == LookupPubkey(st, k);
      assert LookupPubkey(st, k).value in entries;
    }
  }
}
