/** The secondary index against the map it speeds up, over every history of database writes. */
module ValidatorIndex {
  import opened Primitives
  import opened MemoryDb

  ghost function Run(ws: seq<Write>): DbState {
    if ws == [] then DEFAULT_DB else Apply(Run(ws[..|ws| - 1]), ws[|ws| - 1])
  }

  /** The beacon chain's assignment of indices to validators; no two validators share one. */
  type Indices = map<BlsPublicKey, u64>

  ghost predicate Injective(idx: Indices) {
    forall k, k' :: k in idx && k' in idx && idx[k] == idx[k'] ==> k == k'
  }

  /** Every registration is for a validator on the chain and carries its index. */
  ghost predicate Assigned(idx: Indices, regs: seq<Registration>) {
    forall i :: 0 <= i < |regs| ==>
      regs[i].validatorPubkey in idx && regs[i].validatorIndex == idx[regs[i].validatorPubkey]
  }

  ghost predicate AllAssigned(idx: Indices, ws: seq<Write>) {
    forall i :: 0 <= i < |ws| ==>
      match ws[i]
      case Register(regs) => Assigned(idx, regs)
      case SyncRegister(regs) => Assigned(idx, regs)
      case _ => true
  }

  /** `k` was registered through `InMemoryDb::register_validators` at some point. */
  ghost predicate EverRegistered(ws: seq<Write>, k: BlsPublicKey) {
    exists i :: 0 <= i < |ws| && ws[i].Register? && Mentions(ws[i].regs, k)
  }

  ghost predicate NoSyncWrites(ws: seq<Write>) {
    forall i :: 0 <= i < |ws| ==> !ws[i].SyncRegister?
  }

  // ---------- The invariant ----------

  ghost predicate Keyed(idx: Indices, m: map<BlsPublicKey, Registration>) {
    forall k :: k in m ==> k in idx && m[k].validatorPubkey == k && m[k].validatorIndex == idx[k]
  }

  /** The secondary index inverts the assignment wherever it is defined. */
  ghost predicate Inverts(idx: Indices, index: map<u64, BlsPublicKey>) {
    forall i :: i in index ==> index[i] in idx && idx[index[i]] == i
  }

  lemma WritesStayKeyed(idx: Indices, m: map<BlsPublicKey, Registration>, regs: seq<Registration>)
    requires Keyed(idx, m) && Assigned(idx, regs)
    ensures Keyed(idx, WriteRegistrations(m, regs))
  {
    var r := WriteRegistrations(m, regs);
    forall k | k in r ensures k in idx && r[k].validatorPubkey == k && r[k].validatorIndex == idx[k] {
      WriteRegistrationsAt(m, regs, k);
    }
  }

  lemma {:induction false} IndexAfterWrites(idx: Indices, index: map<u64, BlsPublicKey>, regs: seq<Registration>, k: BlsPublicKey)
    requires Injective(idx) && Inverts(idx, index) && Assigned(idx, regs)
    ensures Inverts(idx, WriteIndex(index, regs))
    ensures k in idx ==> (idx[k] in WriteIndex(index, regs) <==> idx[k] in index || Mentions(regs, k))
    ensures k !in idx ==> !Mentions(regs, k)
  {
    if regs != [] {
      var n := |regs| - 1;
      assert forall i :: 0 <= i < n ==> regs[..n][i] == regs[i];
      IndexAfterWrites(idx, index, regs[..n], k);
    }
  }

  lemma {:induction false} RunInvariant(idx: Indices, ws: seq<Write>, k: BlsPublicKey)
    requires Injective(idx) && AllAssigned(idx, ws)
    ensures Keyed(idx, Run(ws).registrations)
    ensures Inverts(idx, Run(ws).indexToPubkey)
    ensures EverRegistered(ws, k) <==> k in idx && idx[k] in Run(ws).indexToPubkey
  {
    if ws != [] {
      var n, before, w := |ws| - 1, Run(ws[..|ws| - 1]), ws[|ws| - 1];
      assert forall i :: 0 <= i < n ==> ws[..n][i] == ws[i];
      RunInvariant(idx, ws[..n], k);
      assert EverRegistered(ws, k) <==> EverRegistered(ws[..n], k) || (w.Register? && Mentions(w.regs, k));
      match w
      case Register(regs) =>
        WritesStayKeyed(idx, before.registrations, regs);
        IndexAfterWrites(idx, before.indexToPubkey, regs, k);
      case SyncRegister(regs) =>
        WritesStayKeyed(idx, before.registrations, regs);
      case _ =>
    }
  }

  // ---------- Who is registered ----------

  ghost function RegsOf(w: Write): seq<Registration> {
    match w
    case Register(regs) => regs
    case SyncRegister(regs) => regs
    case _ => []
  }

  /** The write registers `k`, through the database or a sync, or deregisters it. */
  ghost predicate Concerns(w: Write, k: BlsPublicKey) {
    || (exists m :: 0 <= m < |RegsOf(w)| && RegsOf(w)[m].validatorPubkey == k)
    || (w.Deregister? && exists m :: 0 <= m < |w.deregs| && w.deregs[m].validatorPubkey == k)
  }

  /** The `m`-th registration of write `i` is `r`, for `k`, and nothing later concerns `k`. */
  ghost predicate LastRegistration(ws: seq<Write>, k: BlsPublicKey, r: Registration, i: nat, m: nat) {
    && i < |ws| && m < |RegsOf(ws[i])| && RegsOf(ws[i])[m] == r && r.validatorPubkey == k
    && (forall n :: m < n < |RegsOf(ws[i])| ==> RegsOf(ws[i])[n].validatorPubkey != k)
    && (forall j :: i < j < |ws| ==> !Concerns(ws[j], k))
  }

  lemma {:induction false} LastMention(regs: seq<Registration>, k: BlsPublicKey) returns (m: nat)
    requires exists i :: 0 <= i < |regs| && regs[i].validatorPubkey == k
    ensures m < |regs| && regs[m].validatorPubkey == k
    ensures forall n :: m < n < |regs| ==> regs[n].validatorPubkey != k
  {
    var last := |regs| - 1;
    if regs[last].validatorPubkey == k {
      m := last;
    } else {
      assert forall i :: 0 <= i < last ==> regs[..last][i] == regs[i];
      m := LastMention(regs[..last], k);
    }
  }

  lemma WriteByRegs(st: DbState, w: Write, k: BlsPublicKey)
    ensures !Concerns(w, k) ==>
              var m := Apply(st, w).registrations;
              (k in m <==> k in st.registrations) && (k in m ==> m[k] == st.registrations[k])
    ensures w.Deregister? && Concerns(w, k) ==> k !in Apply(st, w).registrations
    ensures Apply(st, w).registrations == WriteRegistrations(st.registrations, RegsOf(w)) || w.Deregister?
  {
    WriteRegistrationsAt(st.registrations, RegsOf(w), k);
  }

  lemma LastUnlessConcerned(ws: seq<Write>, k: BlsPublicKey, r: Registration, i: nat, m: nat)
    requires ws != [] && !Concerns(ws[|ws| - 1], k)
    ensures LastRegistration(ws, k, r, i, m) <==> LastRegistration(ws[..|ws| - 1], k, r, i, m)
  {
    var n, front := |ws| - 1, ws[..|ws| - 1];
    assert forall i :: 0 <= i < n ==> front[i] == ws[i];
    if LastRegistration(ws, k, r, i, m) {
      assert RegsOf(ws[i])[m].validatorPubkey == k;
      assert i != n;
    }
  }

  /** Over every history: a key is registered, and as `r`, exactly when `r` is its last registration and
      no later write names the key, a deregistration least of all. */
  lemma {:induction false} RegisteredIffLastWrite(ws: seq<Write>, k: BlsPublicKey, r: Registration)
    ensures k in Run(ws).registrations && Run(ws).registrations[k] == r <==>
            exists i: nat, m: nat :: LastRegistration(ws, k, r, i, m)
  {
    if ws != [] {
      var n, front, w := |ws| - 1, ws[..|ws| - 1], ws[|ws| - 1];
      assert forall i :: 0 <= i < n ==> front[i] == ws[i];
      RegisteredIffLastWrite(front, k, r);
      WriteByRegs(Run(front), w, k);
      if !Concerns(w, k) {
        forall i: nat, m: nat ensures LastRegistration(ws, k, r, i, m) <==> LastRegistration(front, k, r, i, m) {
          LastUnlessConcerned(ws, k, r, i, m);
        }
      } else if w.Deregister? {
        assert forall i: nat, m: nat :: LastRegistration(ws, k, r, i, m) ==> i == n;
      } else {
        var m := LastMention(RegsOf(w), k);
        LastWriteWins(Run(front).registrations, map[], RegsOf(w), m);
        assert LastRegistration(ws, k, RegsOf(w)[m], n, m);
        assert forall i: nat, m': nat :: LastRegistration(ws, k, r, i, m') ==> i == n && m' == m;
      }
    }
  }

  /** Write `i` stores `op` under `a`, and no later write stores an operator under `a`. */
  ghost predicate LastOperator(ws: seq<Write>, a: Address, op: Operator, i: nat) {
    && i < |ws| && StoresOperator(ws[i], a) && OperatorIn(ws[i]) == op
    && forall j :: i < j < |ws| ==> !StoresOperator(ws[j], a)
  }

  ghost predicate StoresOperator(w: Write, a: Address) {
    (w.RegisterOperator? && w.operator.signer == a) || (w.SyncOperator? && w.syncOperator.signer == a)
  }

  ghost function OperatorIn(w: Write): Operator
    requires w.RegisterOperator? || w.SyncOperator?
  {
    match w
    case RegisterOperator(op) => op
    case SyncOperator(op) => op
  }

  /** Over every history: the last operator stored under an address, by the API or by a sync, is the one
      known there. */
  lemma {:induction false} OperatorIffLastWrite(ws: seq<Write>, a: Address, op: Operator)
    ensures a in Run(ws).operators && Run(ws).operators[a] == op <==> exists i: nat :: LastOperator(ws, a, op, i)
  {
    if ws != [] {
      var n, front, w := |ws| - 1, ws[..|ws| - 1], ws[|ws| - 1];
      assert forall i :: 0 <= i < n ==> front[i] == ws[i];
      OperatorIffLastWrite(front, a, op);
      if StoresOperator(w, a) {
        assert LastOperator(ws, a, op, n) <==> OperatorIn(w) == op;
        assert forall i: nat :: LastOperator(ws, a, op, i) ==> i == n;
      } else {
        assert forall i: nat :: LastOperator(ws, a, op, i) <==> LastOperator(front, a, op, i);
      }
    }
  }

  // ---------- Main results ----------

  /** Looking up index `i` finds an entry exactly when some validator with that index is registered
      now with a known operator, and was at some time registered through the database itself. The
      entry is that validator's, and its registration carries index `i`. */
  lemma LookupIndexIff(idx: Indices, ws: seq<Write>, i: u64, e: RegistryEntry)
    requires Injective(idx) && AllAssigned(idx, ws)
    ensures LookupIndex(Run(ws), i) == Some(e) <==>
            EntryOf(Run(ws), e.validatorPubkey, e) && EverRegistered(ws, e.validatorPubkey)
              && e.validatorPubkey in idx && idx[e.validatorPubkey] == i
    ensures LookupIndex(Run(ws), i) == Some(e) ==>
              Run(ws).registrations[e.validatorPubkey].validatorIndex == i
  {
    LookupPubkeyIff(Run(ws), e.validatorPubkey, e);
    RunInvariant(idx, ws, e.validatorPubkey);
    var st := Run(ws);
    if i in st.indexToPubkey {
      RunInvariant(idx, ws, st.indexToPubkey[i]);
    }
  }

  /** Lookup by index agrees with lookup by key exactly when the key is not listed at all or went
      through the database's own registration: a validator known only from a sync is not found. */
  lemma IndexAgreesIff(idx: Indices, ws: seq<Write>, k: BlsPublicKey)
    requires Injective(idx) && AllAssigned(idx, ws) && k in idx
    ensures LookupIndex(Run(ws), idx[k]) == LookupPubkey(Run(ws), k) <==>
            LookupPubkey(Run(ws), k).None? || EverRegistered(ws, k)
  {
    RunInvariant(idx, ws, k);
  }

  /** A validator that only a sync has registered is listed, but not found by its index. */
  lemma SyncOnlyIsNotFound(r: Registration, op: Operator)
    requires r.operator == op.signer
    ensures var ws := [SyncRegister([r]), SyncOperator(op)];
            && LookupPubkey(Run(ws), r.validatorPubkey).Some?
            && LookupIndex(Run(ws), r.validatorIndex).None?
  {
    var ws := [SyncRegister([r]), SyncOperator(op)];
    var first := [SyncRegister([r])];
    assert ws[..1] == first && first[..0] == [] && [r][..0] == [];
    assert Run([]) == DEFAULT_DB;
    assert WriteRegistrations(map[], [r]) == map[r.validatorPubkey := r];
    assert Run(first) == DEFAULT_DB.(registrations := map[r.validatorPubkey := r]);
    assert Run(ws) == Run(first).(operators := map[op.signer := op]);
  }

  /** The list that the database returns holds exactly the entries of those validators with one of the
      indices asked for that are registered now with a known operator, and were at some time
      registered through the database itself. Each is registered under its index. */
  lemma ValidatorsByIndexIff(idx: Indices, ws: seq<Write>, db: InMemoryDb, indices: seq<u64>, e: RegistryEntry)
    requires Injective(idx) && AllAssigned(idx, ws) && db.View() == Run(ws)
    ensures e in db.GetValidatorsByIndex(indices) <==>
            EntryOf(Run(ws), e.validatorPubkey, e) && EverRegistered(ws, e.validatorPubkey)
              && e.validatorPubkey in idx && idx[e.validatorPubkey] in indices
    ensures e in db.GetValidatorsByIndex(indices) ==>
              Run(ws).registrations[e.validatorPubkey].validatorIndex in indices
  {
    FilterMapMembers(ByIndex(Run(ws)), indices, e);
    forall i | i in indices ensures LookupIndex(Run(ws), i) == Some(e) <==>
            EntryOf(Run(ws), e.validatorPubkey, e) && EverRegistered(ws, e.validatorPubkey)
              && e.validatorPubkey in idx && idx[e.validatorPubkey] == i
    ensures LookupIndex(Run(ws), i) == Some(e) ==> Run(ws).registrations[e.validatorPubkey].validatorIndex == i
    {
      LookupIndexIff(idx, ws, i, e);
    }
  }

  /** The last key registered under index `i` by a batch. */
  ghost function LastNamed(regs: seq<Registration>, i: u64): Option<BlsPublicKey> {
    if regs == [] then None
    else if regs[|regs| - 1].validatorIndex == i then Some(regs[|regs| - 1].validatorPubkey)
    else LastNamed(regs[..|regs| - 1], i)
  }

  /** The last key registered under index `i` through the database itself. */
  ghost function LastIndexed(ws: seq<Write>, i: u64): Option<BlsPublicKey> {
    if ws == [] then None
    else
      var n := |ws| - 1;
      if ws[n].Register? && LastNamed(ws[n].regs, i).Some? then LastNamed(ws[n].regs, i) else LastIndexed(ws[..n], i)
  }

  lemma {:induction false} IndexAt(index: map<u64, BlsPublicKey>, regs: seq<Registration>, i: u64)
    ensures var r, last := WriteIndex(index, regs), LastNamed(regs, i);
            if last.Some? then i in r && r[i] == last.value
            else (i in r <==> i in index) && (i in r ==> r[i] == index[i])
  {
    if regs != [] {
      IndexAt(index, regs[..|regs| - 1], i);
    }
  }

  /** With no assumption on indices: looking up an index is looking up the key that was last registered
      under it through the database itself. */
  lemma {:induction false} IndexIsLastWrite(ws: seq<Write>, i: u64)
    ensures i in Run(ws).indexToPubkey <==> LastIndexed(ws, i).Some?
    ensures LookupIndex(Run(ws), i) ==
            if LastIndexed(ws, i).Some? then LookupPubkey(Run(ws), LastIndexed(ws, i).value) else None
    ensures i in Run(ws).indexToPubkey ==> Run(ws).indexToPubkey[i] == LastIndexed(ws, i).value
  {
    if ws != [] {
      var n := |ws| - 1;
      IndexIsLastWrite(ws[..n], i);
      if ws[n].Register? {
        IndexAt(Run(ws[..n]).indexToPubkey, ws[n].regs, i);
      }
    }
  }

  lemma {:induction false} RegisteredWithoutSync(ws: seq<Write>, k: BlsPublicKey)
    requires NoSyncWrites(ws) && k in Run(ws).registrations
    ensures EverRegistered(ws, k)
  {
    if ws != [] {
      var n, before, w := |ws| - 1, Run(ws[..|ws| - 1]), ws[|ws| - 1];
      assert forall i :: 0 <= i < n ==> ws[..n][i] == ws[i];
      if w.Register? {
        WriteRegistrationsAt(before.registrations, w.regs, k);
      }
      if k in before.registrations {
        RegisteredWithoutSync(ws[..n], k);
        var i :| 0 <= i < n && ws[..n][i].Register? && Mentions(ws[..n][i].regs, k);
        assert ws[i].Register?;
      }
    }
  }

  /** Without sync writes everything registered went through the database, so a lookup by index
      finds exactly the listed entries whose validator has that index. */
  lemma IndexIsScanWithoutSync(idx: Indices, ws: seq<Write>, i: u64, e: RegistryEntry)
    requires Injective(idx) && AllAssigned(idx, ws) && NoSyncWrites(ws)
    ensures LookupIndex(Run(ws), i) == Some(e) <==>
            (exists k :: EntryOf(Run(ws), k, e)) && e.validatorPubkey in idx && idx[e.validatorPubkey] == i
  {
    var st := Run(ws);
    LookupIndexIff(idx, ws, i, e);
    if k :| EntryOf(st, k, e) {
      RunInvariant(idx, ws, k);
      RegisteredWithoutSync(ws, k);
    }
  }

  /** So without sync writes the returned list is a filter of the listed entries by their index. */
  lemma ByIndexIsScanWithoutSync(idx: Indices, ws: seq<Write>, db: InMemoryDb, indices: seq<u64>, e: RegistryEntry)
    requires Injective(idx) && AllAssigned(idx, ws) && NoSyncWrites(ws) && db.View() == Run(ws)
    ensures e in db.GetValidatorsByIndex(indices) <==>
            (exists k :: EntryOf(db.View(), k, e))
              && e.validatorPubkey in idx && idx[e.validatorPubkey] in indices
  {
    ValidatorsByIndexIff(idx, ws, db, indices, e);
    if e.validatorPubkey in idx {
      IndexIsScanWithoutSync(idx, ws, idx[e.validatorPubkey], e);
      LookupIndexIff(idx, ws, idx[e.validatorPubkey], e);
    }
  }
}
