/** The in-memory registry database: a map of registrations, a secondary index from validator index
    to public key, a map of operators and the sync state. */
module MemoryDb {
  import opened Primitives

  datatype DbState = DbState(
    registrations: map<BlsPublicKey, Registration>,
    indexToPubkey: map<u64, BlsPublicKey>,
    operators: map<Address, Operator>,
    syncState: SyncStateUpdate)

  const DEFAULT_DB := DbState(map[], map[], map[], SyncStateUpdate(0, 0, 0))

  // ---------- Writes ----------

  /** Insert one by one; the last write to a key wins. */
  ghost function WriteRegistrations(m: map<BlsPublicKey, Registration>, regs: seq<Registration>)
    : map<BlsPublicKey, Registration>
  {
    if regs == [] then m
    else
      var n := |regs| - 1;
      WriteRegistrations(m, regs[..n])[regs[n].validatorPubkey := regs[n]]
  }

  ghost function WriteIndex(m: map<u64, BlsPublicKey>, regs: seq<Registration>): map<u64, BlsPublicKey> {
    if regs == [] then m
    else
      var n := |regs| - 1;
      WriteIndex(m, regs[..n])[regs[n].validatorIndex := regs[n].validatorPubkey]
  }

  ghost function Pubkeys(deregs: seq<Deregistration>): set<BlsPublicKey> {
    set i | 0 <= i < |deregs| :: deregs[i].validatorPubkey
  }

  /** Exactly the keys that the batch names are gone. */
  lemma DeregisteredIff(m: map<BlsPublicKey, Registration>, deregs: seq<Deregistration>)
    ensures var r := m - Pubkeys(deregs);
            && (forall k :: k in r <==> k in m && forall i :: 0 <= i < |deregs| ==> deregs[i].validatorPubkey != k)
            && (forall k :: k in r ==> r[k] == m[k])
  {
  }

  /** The last registration for `k` in the batch, if any. */
  ghost function LastFor(regs: seq<Registration>, k: BlsPublicKey): Option<Registration> {
    if regs == [] then None
    else if regs[|regs| - 1].validatorPubkey == k then Some(regs[|regs| - 1])
    else LastFor(regs[..|regs| - 1], k)
  }

  ghost predicate Mentions(regs: seq<Registration>, k: BlsPublicKey) {
    exists i :: 0 <= i < |regs| && regs[i].validatorPubkey == k
  }

  /** Key by key: a batch overwrites what it mentions and leaves the rest. */
  lemma {:induction false} WriteRegistrationsAt(m: map<BlsPublicKey, Registration>, regs: seq<Registration>, k: BlsPublicKey)
    ensures var r, last := WriteRegistrations(m, regs), LastFor(regs, k);
            && (last.Some? <==> Mentions(regs, k))
            && (last.Some? ==> k in r && r[k] == last.value && last.value in regs && last.value.validatorPubkey == k)
            && (last.None? ==> (k in r <==> k in m) && (k in r ==> r[k] == m[k]))
  {
    if regs != [] {
      var n := |regs| - 1;
      WriteRegistrationsAt(m, regs[..n], k);
      assert forall i :: 0 <= i < n ==> regs[..n][i] == regs[i];
    }
  }

  /** Of several registrations of a key in one batch, the last is stored; of several under an index, the
      key of the last. */
  lemma {:induction false} LastWriteWins(m: map<BlsPublicKey, Registration>, index: map<u64, BlsPublicKey>,
                                         regs: seq<Registration>, i: nat)
    requires i < |regs|
    ensures (forall j :: i < j < |regs| ==> regs[j].validatorPubkey != regs[i].validatorPubkey) ==>
              var k := regs[i].validatorPubkey;
              k in WriteRegistrations(m, regs) && WriteRegistrations(m, regs)[k] == regs[i]
    ensures (forall j :: i < j < |regs| ==> regs[j].validatorIndex != regs[i].validatorIndex) ==>
              var v := regs[i].validatorIndex;
              v in WriteIndex(index, regs) && WriteIndex(index, regs)[v] == regs[i].validatorPubkey
  {
    var n := |regs| - 1;
    if i < n {
      assert forall j :: 0 <= j < n ==> regs[..n][j] == regs[j];
      LastWriteWins(m, index, regs[..n], i);
      assert n > i;
    }
  }

  ghost predicate KeyedByPubkey(st: DbState) {
    forall k :: k in st.registrations ==> st.registrations[k].validatorPubkey == k
  }

  // ---------- Reads ----------

  /** The registry entry of a registration, if its operator is known. */
  function Join(operators: map<Address, Operator>, r: Registration): Option<RegistryEntry> {
    if r.operator in operators
    then Some(RegistryEntry(r.validatorPubkey, r.operator, r.gasLimit, operators[r.operator].rpcEndpoint))
    else None
  }

  function LookupPubkey(st: DbState, k: BlsPublicKey): Option<RegistryEntry> {
    if k in st.registrations then Join(st.operators, st.registrations[k]) else None
  }

  /** The entry for a key: it has one exactly when it is registered and that registration's operator is
      known. Key, operator and gas limit are the registration's, the endpoint is the operator's. */
  lemma LookupPubkeyIff(st: DbState, k: BlsPublicKey, e: RegistryEntry)
    ensures LookupPubkey(st, k) == Some(e) <==>
            && k in st.registrations
            && st.registrations[k].operator in st.operators
            && e.validatorPubkey == st.registrations[k].validatorPubkey
            && e.operator == st.registrations[k].operator
            && e.gasLimit == st.registrations[k].gasLimit
            && e.rpcEndpoint == st.operators[st.registrations[k].operator].rpcEndpoint
  {
  }

  /** `e` is put together from the registration of `k` and its operator. */
  ghost predicate EntryOf(st: DbState, k: BlsPublicKey, e: RegistryEntry) {
    && k in st.registrations && st.registrations[k].operator in st.operators
    && var r := st.registrations[k];
       e == RegistryEntry(r.validatorPubkey, r.operator, r.gasLimit, st.operators[r.operator].rpcEndpoint)
  }

  /** The keys among `keys` that a listing of all validators shows. */
  ghost function Listed(st: DbState, keys: set<BlsPublicKey>): set<BlsPublicKey> {
    set k | k in keys && LookupPubkey(st, k).Some?
  }

  lemma ListedAll(st: DbState)
    ensures Listed(st, st.registrations.Keys) == set k | k in st.registrations && st.registrations[k].operator in st.operators
  {
  }

  lemma ListedAdd(st: DbState, keys: set<BlsPublicKey>, k: BlsPublicKey)
    requires k !in keys
    ensures |Listed(st, keys + {k})| == |Listed(st, keys)| + if LookupPubkey(st, k).Some? then 1 else 0
  {
    assert Listed(st, keys + {k}) == Listed(st, keys) + if LookupPubkey(st, k).Some? then {k} else {};
  }

  function LookupIndex(st: DbState, index: u64): Option<RegistryEntry> {
    if index in st.indexToPubkey then LookupPubkey(st, st.indexToPubkey[index]) else None
  }

  /** `filter_map(..).collect()`. */
  function FilterMap<A, B>(f: A -> Option<B>, xs: seq<A>): seq<B> {
    if xs == [] then []
    else
      var front := FilterMap(f, xs[..|xs| - 1]);
      match f(xs[|xs| - 1])
      case Some(y) => front + [y]
      case None => front
  }

  lemma {:induction false} FilterMapMembers<A, B>(f: A -> Option<B>, xs: seq<A>, y: B)
    ensures y in FilterMap(f, xs) <==> exists i :: 0 <= i < |xs| && f(xs[i]) == Some(y)
  {
    if xs != [] {
      var n := |xs| - 1;
      FilterMapMembers(f, xs[..n], y);
      assert forall i :: 0 <= i < n ==> xs[..n][i] == xs[i];
    }
  }

  /** The places in `xs` that have an answer, in order. */
  ghost function Hits<A, B>(f: A -> Option<B>, xs: seq<A>): seq<nat> {
    if xs == [] then []
    else Hits(f, xs[..|xs| - 1]) + if f(xs[|xs| - 1]).Some? then [|xs| - 1] else []
  }

  /** One answer for each place that has one, in the order of the places. */
  lemma {:induction false} FilterMapInOrder<A, B>(f: A -> Option<B>, xs: seq<A>)
    ensures var r, hits := FilterMap(f, xs), Hits(f, xs);
            && |r| == |hits|
            && (forall j :: 0 <= j < |r| ==> hits[j] < |xs| && f(xs[hits[j]]) == Some(r[j]))
            && (forall j, k :: 0 <= j < k < |r| ==> hits[j] < hits[k])
            && (forall i: nat :: i in hits <==> i < |xs| && f(xs[i]).Some?)
  {
    if xs != [] {
      var n := |xs| - 1;
      FilterMapInOrder(f, xs[..n]);
      assert forall i :: 0 <= i < n ==> xs[..n][i] == xs[i];
    }
  }

  /** How the database answers for a key, and for an index. */
  function ByPubkey(st: DbState): BlsPublicKey -> Option<RegistryEntry> {
    (k: BlsPublicKey) => LookupPubkey(st, k)
  }

  function ByIndex(st: DbState): u64 -> Option<RegistryEntry> {
    (i: u64) => LookupIndex(st, i)
  }

  // ---------- All writes, as one transition function ----------

  datatype Write =
    | Register(regs: seq<Registration>)
    | Deregister(deregs: seq<Deregistration>)
    | RegisterOperator(operator: Operator)
    | SyncRegister(syncRegs: seq<Registration>)
    | SyncOperator(syncOperator: Operator)
    | Commit(state: SyncStateUpdate)

  /** What the methods of the database and of its sync transaction do. */
  ghost function Apply(st: DbState, w: Write): DbState {
    match w
    case Register(regs) =>
      st.(registrations := WriteRegistrations(st.registrations, regs), indexToPubkey := WriteIndex(st.indexToPubkey, regs))
    case Deregister(deregs) => st.(registrations := st.registrations - Pubkeys(deregs))
    case RegisterOperator(op) => st.(operators := st.operators[op.signer := op])
    case SyncRegister(regs) => st.(registrations := WriteRegistrations(st.registrations, regs))
    case SyncOperator(op) => st.(operators := st.operators[op.signer := op])
    case Commit(state) => st.(syncState := state)
  }

  // ---------- The database ----------

  class InMemoryDb {
    var registrations: map<BlsPublicKey, Registration>
    var indexToPubkey: map<u64, BlsPublicKey>
    var operators: map<Address, Operator>
    var syncState: SyncStateUpdate

    constructor ()
      ensures Valid() && View() == DEFAULT_DB
    {
      registrations, indexToPubkey, operators, syncState := map[], map[], map[], SyncStateUpdate(0, 0, 0);
    }

    /** Every registration is stored under its own key. */
    ghost predicate Valid()
      reads this
    {
      KeyedByPubkey(View())
    }

    function View(): DbState
      reads this
    {
      DbState(registrations, indexToPubkey, operators, syncState)
    }

    method RegisterOperator(operator: Operator)
      requires Valid()
      modifies this
      ensures Valid()
      ensures View() == old(View()).(operators := old(operators)[operator.signer := operator])
      ensures View() == Apply(old(View()), Write.RegisterOperator(operator))
    {
      operators := operators[operator.signer := operator];
    }

    method RegisterValidators(regs: seq<Registration>)
      requires Valid()
      modifies this
      ensures Valid()
      ensures View() == old(View()).(
                registrations := WriteRegistrations(old(registrations), regs),
                indexToPubkey := WriteIndex(old(indexToPubkey), regs))
      ensures View() == Apply(old(View()), Register(regs))
    {
      for i := 0 to |regs|
        invariant Valid()
        invariant View() == old(View()).(
                    registrations := WriteRegistrations(old(registrations), regs[..i]),
                    indexToPubkey := WriteIndex(old(indexToPubkey), regs[..i]))
      {
        assert regs[..i + 1][..i] == regs[..i];
        registrations := registrations[regs[i].validatorPubkey := regs[i]];
        indexToPubkey := indexToPubkey[regs[i].validatorIndex := regs[i].validatorPubkey];
      }
      assert regs[..|regs|] == regs;
    }

    /** Deregistering does not touch the index. */
    method DeregisterValidators(deregs: seq<Deregistration>)
      requires Valid()
      modifies this
      ensures Valid()
      ensures View() == old(View()).(registrations := old(registrations) - Pubkeys(deregs))
      ensures View() == Apply(old(View()), Deregister(deregs))
      ensures forall k :: k in registrations <==>
                k in old(registrations) && forall i :: 0 <= i < |deregs| ==> deregs[i].validatorPubkey != k
      ensures forall k :: k in registrations ==> registrations[k] == old(registrations)[k]
    {
      for i := 0 to |deregs|
        invariant Valid()
        invariant View() == old(View()).(registrations := old(registrations) - Pubkeys(deregs[..i]))
      {
        assert Pubkeys(deregs[..i + 1]) == Pubkeys(deregs[..i]) + {deregs[i].validatorPubkey} by {
          assert deregs[..i + 1][i] == deregs[i];
          assert forall k :: 0 <= k < i ==> deregs[..i + 1][k] == deregs[..i][k];
        }
        registrations := registrations - {deregs[i].validatorPubkey};
      }
      assert deregs[..|deregs|] == deregs;
      DeregisteredIff(old(registrations), deregs);
    }

    /** The values of a hash map come in no particular order, each once. */
    method ListValidators() returns (entries: seq<RegistryEntry>)
      ensures forall e :: e in entries <==> exists k :: EntryOf(View(), k, e)
      ensures |entries| == |set k | k in registrations && registrations[k].operator in operators|
    {
      entries := [];
      var left := registrations.Keys;
      ghost var seen: set<BlsPublicKey> := {};
      while left != {}
        invariant left !! seen && left + seen == registrations.Keys
        invariant forall e :: e in entries <==> exists k :: k in seen && EntryOf(View(), k, e)
        invariant |entries| == |Listed(View(), seen)|
        decreases |left|
      {
        var k :| k in left;
        ListedAdd(View(), seen, k);
        match Join(operators, registrations[k]) {
          case Some(e) => entries := entries + [e];
          case None =>
        }
        left, seen := left - {k}, seen + {k};
      }
      assert seen == registrations.Keys;
      ListedAll(View());
    }

    function GetValidatorsByPubkey(pubkeys: seq<BlsPublicKey>): seq<RegistryEntry>
      reads this
    {
      FilterMap(ByPubkey(View()), pubkeys)
    }

    function GetValidatorsByIndex(indices: seq<u64>): seq<RegistryEntry>
      reads this
    {
      FilterMap(ByIndex(View()), indices)
    }

    method BeginSync() returns (tx: InMemorySyncTransaction)
      ensures fresh(tx) && tx.db == this
    {
      tx := new InMemorySyncTransaction(this);
    }
  }

  /** A sync transaction shares the database's maps (all but the index) and writes straight through;
      committing only stores the new sync state. */
  class InMemorySyncTransaction {
    const db: InMemoryDb

    constructor (db: InMemoryDb)
      ensures this.db == db
    {
      this.db := db;
    }

    method RegisterValidators(regs: seq<Registration>)
      requires db.Valid()
      modifies db
      ensures db.Valid()
      ensures db.View() == old(db.View()).(registrations := WriteRegistrations(old(db.registrations), regs))
      ensures db.View() == Apply(old(db.View()), SyncRegister(regs))
    {
      for i := 0 to |regs|
        invariant db.Valid()
        invariant db.View() == old(db.View()).(registrations := WriteRegistrations(old(db.registrations), regs[..i]))
      {
        assert regs[..i + 1][..i] == regs[..i];
        db.registrations := db.registrations[regs[i].validatorPubkey := regs[i]];
      }
      assert regs[..|regs|] == regs;
    }

    method RegisterOperator(operator: Operator)
      requires db.Valid()
      modifies db
      ensures db.Valid()
      ensures db.View() == old(db.View()).(operators := old(db.operators)[operator.signer := operator])
      ensures db.View() == Apply(old(db.View()), SyncOperator(operator))
    {
      db.operators := db.operators[operator.signer := operator];
    }

    method Commit(state: SyncStateUpdate)
      requires db.Valid()
      modifies db
      ensures db.Valid()
      ensures db.View() == old(db.View()).(syncState := state)
      ensures db.View() == Apply(old(db.View()), Write.Commit(state))
    {
      db.syncState := state;
    }
  }

  /** The list returned for some keys holds exactly the entries of those keys. */
  lemma ValidatorsByPubkeyIff(db: InMemoryDb, pubkeys: seq<BlsPublicKey>, e: RegistryEntry)
    ensures e in db.GetValidatorsByPubkey(pubkeys) <==>
            exists i :: 0 <= i < |pubkeys| && EntryOf(db.View(), pubkeys[i], e)
  {
    FilterMapMembers(ByPubkey(db.View()), pubkeys, e);
    forall i | 0 <= i < |pubkeys|
      ensures ByPubkey(db.View())(pubkeys[i]) == Some(e) <==> EntryOf(db.View(), pubkeys[i], e)
    {
      LookupPubkeyIff(db.View(), pubkeys[i], e);
    }
  }
}
