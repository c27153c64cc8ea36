/** What syncing writes: one lookahead window, a range of epochs, and a history of transitions. */
module SyncSpec {
  import opened Primitives
  import opened MemoryDb
  import opened Batches
  import opened RegistryActor
  import opened EpochStream

  /** What the outside answers: proposer duties by epoch, registry entries and active validators by
      key. Each client retries until it gets an answer. */
  datatype World = World(
    duties: nat -> seq<ProposerDuty>,
    source: Option<seq<BlsPublicKey> -> seq<RegistryEntry>>,
    summaries: seq<BlsPublicKey> -> seq<ValidatorSummary>)
  {
    /** `get_lookahead(epoch, true)`: the duties of the epoch and of the next one. */
    function ExtendedLookahead(epoch: nat): seq<ProposerDuty> {
      duties(epoch) + duties(epoch + 1)
    }
  }

  const SYNC_GAS_LIMIT: u64 := 10_000

  function EntryKeys(entries: seq<RegistryEntry>): (r: seq<BlsPublicKey>)
    ensures |r| == |entries| && forall i :: 0 <= i < |r| ==> r[i] == entries[i].validatorPubkey
  {
    seq(|entries|, i requires 0 <= i < |entries| => entries[i].validatorPubkey)
  }

  /** The index in the first summary of `k`. */
  function FirstIndex(summaries: seq<ValidatorSummary>, k: BlsPublicKey): (r: Option<u64>)
    ensures r.Some? <==> Reported(summaries, k)
  {
    if summaries == [] then None
    else if summaries[0].publicKey == k then
      assert summaries[0] in summaries;
      Some(summaries[0].index)
    else
      assert forall v :: v in summaries <==> v == summaries[0] || v in summaries[1..];
      FirstIndex(summaries[1..], k)
  }

  function ToOperator(e: RegistryEntry): Operator {
    Operator(e.operator, e.rpcEndpoint, [], [])
  }

  function ToRegistration(e: RegistryEntry, index: u64): Registration {
    Registration(e.validatorPubkey, index, e.operator, SYNC_GAS_LIMIT, 0, None)
  }

  /** The entries whose validator the beacon chain knows as active. */
  ghost function Retain(entries: seq<RegistryEntry>, summaries: seq<ValidatorSummary>): seq<RegistryEntry> {
    if entries == [] then []
    else
      var n := |entries| - 1;
      Retain(entries[..n], summaries) + if Reported(summaries, entries[n].validatorPubkey) then [entries[n]] else []
  }

  lemma {:induction false} RetainMembers(entries: seq<RegistryEntry>, summaries: seq<ValidatorSummary>, e: RegistryEntry)
    ensures e in Retain(entries, summaries) <==> e in entries && Reported(summaries, e.validatorPubkey)
  {
    if entries != [] {
      var front := entries[..|entries| - 1];
      RetainMembers(front, summaries, e);
      assert entries == front + [entries[|entries| - 1]];
    }
  }

  /** Retaining looks at each entry by itself and keeps the order. */
  lemma RetainOne(e: RegistryEntry, summaries: seq<ValidatorSummary>)
    ensures Retain([e], summaries) ==
            if exists j :: 0 <= j < |summaries| && summaries[j].publicKey == e.validatorPubkey then [e] else []
  {
    assert [e][..0] == [];
    assert Reported(summaries, e.validatorPubkey) <==>
      exists j :: 0 <= j < |summaries| && summaries[j].publicKey == e.validatorPubkey;
  }

  lemma RetainGrows(front: seq<RegistryEntry>, e: RegistryEntry, summaries: seq<ValidatorSummary>)
    ensures Retain(front + [e], summaries) == Retain(front, summaries) + Retain([e], summaries)
  {
    assert (front + [e])[..|front|] == front && [e][..0] == [];
  }

  lemma {:induction false} RetainConcat(a: seq<RegistryEntry>, b: seq<RegistryEntry>, summaries: seq<ValidatorSummary>)
    ensures Retain(a + b, summaries) == Retain(a, summaries) + Retain(b, summaries)
  {
    if b == [] {
      assert a + b == a;
    } else {
      var front, last := b[..|b| - 1], b[|b| - 1];
      assert a + b == a + front + [last] && b == front + [last];
      RetainConcat(a, front, summaries);
      RetainGrows(a + front, last, summaries);
      RetainGrows(front, last, summaries);
    }
  }

  /** The index found is that of the first summary about the key. */
  ghost predicate IsFirstIndex(summaries: seq<ValidatorSummary>, k: BlsPublicKey, index: u64, j: nat) {
    && j < |summaries| && summaries[j].publicKey == k && summaries[j].index == index
    && forall l :: 0 <= l < j ==> summaries[l].publicKey != k
  }

  lemma {:induction false} FirstIndexIff(summaries: seq<ValidatorSummary>, k: BlsPublicKey, index: u64)
    ensures FirstIndex(summaries, k) == Some(index) <==> exists j :: IsFirstIndex(summaries, k, index, j)
  {
    if summaries != [] {
      var rest := summaries[1..];
      FirstIndexIff(rest, k, index);
      if summaries[0].publicKey == k {
        assert IsFirstIndex(summaries, k, index, 0) <==> summaries[0].index == index;
        assert forall j: nat :: IsFirstIndex(summaries, k, index, j) ==> j == 0;
      } else {
        forall j: nat ensures IsFirstIndex(rest, k, index, j) <==> IsFirstIndex(summaries, k, index, j + 1) {
          assert forall l :: 0 <= l < |rest| ==> rest[l] == summaries[l + 1];
          if IsFirstIndex(rest, k, index, j) {
            assert forall l :: 0 < l < j + 1 ==> summaries[l] == rest[l - 1];
          }
          if IsFirstIndex(summaries, k, index, j + 1) {
            assert forall l :: 0 <= l < j ==> rest[l] == summaries[l + 1];
          }
        }
        if j: nat :| IsFirstIndex(summaries, k, index, j) {
          assert IsFirstIndex(rest, k, index, j - 1);
        }
      }
    }
  }

  ghost function RegistrationsOf(entries: seq<RegistryEntry>, summaries: seq<ValidatorSummary>): seq<Registration> {
    if entries == [] then []
    else
      var e := entries[|entries| - 1];
      RegistrationsOf(entries[..|entries| - 1], summaries) +
      match FirstIndex(summaries, e.validatorPubkey)
      case Some(index) => [ToRegistration(e, index)]
      case None => []
  }

  ghost predicate AllReported(entries: seq<RegistryEntry>, summaries: seq<ValidatorSummary>) {
    forall i :: 0 <= i < |entries| ==> Reported(summaries, entries[i].validatorPubkey)
  }

  lemma {:induction false} RegistrationsAligned(entries: seq<RegistryEntry>, summaries: seq<ValidatorSummary>)
    requires AllReported(entries, summaries)
    ensures var r := RegistrationsOf(entries, summaries);
            && |r| == |entries|
            && forall i :: 0 <= i < |r| ==>
                 && r[i] == ToRegistration(entries[i], FirstIndex(summaries, entries[i].validatorPubkey).value)
                 && r[i].validatorPubkey == entries[i].validatorPubkey && r[i].operator == entries[i].operator
                 && r[i].gasLimit == 10_000 && r[i].expiry == 0 && r[i].signature == None
  {
    if entries != [] {
      var n := |entries| - 1;
      var front, last := RegistrationsOf(entries[..n], summaries), FirstIndex(summaries, entries[n].validatorPubkey);
      RegistrationsAligned(entries[..n], summaries);
      assert last.Some?;
      assert RegistrationsOf(entries, summaries) == front + [ToRegistration(entries[n], last.value)];
    }
  }

  lemma RetainedAreReported(entries: seq<RegistryEntry>, summaries: seq<ValidatorSummary>)
    ensures AllReported(Retain(entries, summaries), summaries)
  {
    var r := Retain(entries, summaries);
    forall i | 0 <= i < |r| ensures Reported(summaries, r[i].validatorPubkey) {
      RetainMembers(entries, summaries, r[i]);
    }
  }

  /** One operator per signer; a later entry of the signer wins. */
  ghost function OperatorsOf(entries: seq<RegistryEntry>): map<Address, Operator> {
    if entries == [] then map[]
    else
      var e := entries[|entries| - 1];
      OperatorsOf(entries[..|entries| - 1])[e.operator := ToOperator(e)]
  }

  // ---------- One window ----------

  ghost function Answers(w: World, lookahead: seq<ProposerDuty>): seq<RegistryEntry> {
    if w.source.None? then [] else w.source.value(Keys(lookahead))
  }

  ghost function Summaries(w: World, lookahead: seq<ProposerDuty>): seq<ValidatorSummary> {
    w.summaries(EntryKeys(Answers(w, lookahead)))
  }

  ghost function Retained(w: World, lookahead: seq<ProposerDuty>): seq<RegistryEntry> {
    Retain(Answers(w, lookahead), Summaries(w, lookahead))
  }

  ghost function NewRegistrations(w: World, lookahead: seq<ProposerDuty>): seq<Registration> {
    RegistrationsOf(Retained(w, lookahead), Summaries(w, lookahead))
  }

  /** What one window writes, key by key. */
  datatype Window = Window(registrations: map<BlsPublicKey, Registration>, operators: map<Address, Operator>)

  ghost function WindowOf(w: World, lookahead: seq<ProposerDuty>): Window {
    Window(WriteRegistrations(map[], NewRegistrations(w, lookahead)), OperatorsOf(Retained(w, lookahead)))
  }

  ghost function Merge(st: DbState, window: Window): DbState {
    st.(registrations := st.registrations + window.registrations, operators := st.operators + window.operators)
  }

  lemma WriteIsMerge(m: map<BlsPublicKey, Registration>, regs: seq<Registration>)
    ensures WriteRegistrations(m, regs) == m + WriteRegistrations(map[], regs)
  {
    var direct, merged := WriteRegistrations(m, regs), m + WriteRegistrations(map[], regs);
    forall k ensures (k in direct <==> k in merged) && (k in direct ==> direct[k] == merged[k]) {
      WriteRegistrationsAt(m, regs, k);
      WriteRegistrationsAt(map[], regs, k);
    }
  }

  // ---------- One window, from the outside's answers to the database ----------

  /** The `i`-th answer is the last one about `k`, the beacon chain reports `k`, with `index` in the first
      summary about it, and `r` is what the syncer makes of that. */
  ghost predicate Registers(answers: seq<RegistryEntry>, summaries: seq<ValidatorSummary>, k: BlsPublicKey,
                            r: Registration, i: nat)
  {
    && i < |answers| && answers[i].validatorPubkey == k
    && (forall n :: i < n < |answers| ==> answers[n].validatorPubkey != k)
    && (exists j :: IsFirstIndex(summaries, k, r.validatorIndex, j))
    && r == Registration(k, r.validatorIndex, answers[i].operator, 10_000, 0, None)
  }

  ghost predicate IsReported(summaries: seq<ValidatorSummary>, k: BlsPublicKey) {
    exists j :: 0 <= j < |summaries| && summaries[j].publicKey == k
  }

  /** The `i`-th answer is the last one for `a` about a validator that the beacon chain reports. */
  ghost predicate Appoints(answers: seq<RegistryEntry>, summaries: seq<ValidatorSummary>, a: Address, op: Operator, i: nat) {
    && i < |answers| && answers[i].operator == a && IsReported(summaries, answers[i].validatorPubkey)
    && (forall n :: i < n < |answers| && answers[n].operator == a ==> !IsReported(summaries, answers[n].validatorPubkey))
    && op == Operator(a, answers[i].rpcEndpoint, [], [])
  }

  ghost function Written(answers: seq<RegistryEntry>, summaries: seq<ValidatorSummary>): map<BlsPublicKey, Registration> {
    WriteRegistrations(map[], RegistrationsOf(Retain(answers, summaries), summaries))
  }

  lemma WrittenGrows(front: seq<RegistryEntry>, e: RegistryEntry, summaries: seq<ValidatorSummary>)
    ensures Written(front + [e], summaries) ==
            match FirstIndex(summaries, e.validatorPubkey)
            case Some(index) => Written(front, summaries)[e.validatorPubkey := ToRegistration(e, index)]
            case None => Written(front, summaries)
  {
    assert (front + [e])[..|front|] == front;
    var kept := Retain(front, summaries);
    if FirstIndex(summaries, e.validatorPubkey).Some? {
      assert (kept + [e])[..|kept|] == kept;
      var regs, r := RegistrationsOf(kept, summaries), ToRegistration(e, FirstIndex(summaries, e.validatorPubkey).value);
      assert RegistrationsOf(kept + [e], summaries) == regs + [r];
      assert (regs + [r])[..|regs|] == regs;
    } else {
      assert Retain(front + [e], summaries) == kept + [] == kept;
    }
  }

  lemma {:induction false} WrittenIff(answers: seq<RegistryEntry>, summaries: seq<ValidatorSummary>, k: BlsPublicKey, r: Registration)
    ensures k in Written(answers, summaries) && Written(answers, summaries)[k] == r <==>
            exists i :: Registers(answers, summaries, k, r, i)
  {
    if answers != [] {
      var n, front, e := |answers| - 1, answers[..|answers| - 1], answers[|answers| - 1];
      assert answers == front + [e];
      WrittenIff(front, summaries, k, r);
      WrittenGrows(front, e, summaries);
      FirstIndexIff(summaries, k, r.validatorIndex);
      if e.validatorPubkey == k {
        assert forall i: nat :: Registers(answers, summaries, k, r, i) ==> i == n;
        assert Registers(answers, summaries, k, r, n) <==>
          FirstIndex(summaries, k) == Some(r.validatorIndex) && r == ToRegistration(e, r.validatorIndex);
        if FirstIndex(summaries, k).None? {
          NothingWritten(front, summaries, k);
        }
      } else {
        assert forall i: nat :: Registers(answers, summaries, k, r, i) <==> Registers(front, summaries, k, r, i);
      }
    }
  }

  lemma {:induction false} NothingWritten(answers: seq<RegistryEntry>, summaries: seq<ValidatorSummary>, k: BlsPublicKey)
    requires FirstIndex(summaries, k).None?
    ensures k !in Written(answers, summaries)
  {
    if answers != [] {
      assert answers == answers[..|answers| - 1] + [answers[|answers| - 1]];
      NothingWritten(answers[..|answers| - 1], summaries, k);
      WrittenGrows(answers[..|answers| - 1], answers[|answers| - 1], summaries);
    }
  }

  lemma {:induction false} AppointedIff(answers: seq<RegistryEntry>, summaries: seq<ValidatorSummary>, a: Address, op: Operator)
    ensures var ops := OperatorsOf(Retain(answers, summaries));
            a in ops && ops[a] == op <==> exists i :: Appoints(answers, summaries, a, op, i)
  {
    if answers != [] {
      var n, front, e := |answers| - 1, answers[..|answers| - 1], answers[|answers| - 1];
      AppointedIff(front, summaries, a, op);
      var kept := Retain(front, summaries);
      assert Reported(summaries, e.validatorPubkey) <==> IsReported(summaries, e.validatorPubkey);
      assert (kept + [e])[..|kept|] == kept && kept + [] == kept;
      assert Retain(answers, summaries) == kept + if Reported(summaries, e.validatorPubkey) then [e] else [];
      if e.operator == a && IsReported(summaries, e.validatorPubkey) {
        assert forall i: nat :: Appoints(answers, summaries, a, op, i) ==> i == n;
        assert Appoints(answers, summaries, a, op, n) <==> op == ToOperator(e);
      } else {
        assert forall i: nat :: Appoints(answers, summaries, a, op, i) <==> Appoints(front, summaries, a, op, i);
      }
    }
  }

  /** What syncing a lookahead asks the outside: the source about the keys on duty, and then the beacon
      chain about the keys that the source answered with. */
  ghost predicate Asked(w: World, lookahead: seq<ProposerDuty>, answers: seq<RegistryEntry>, summaries: seq<ValidatorSummary>) {
    if w.source.None? then answers == []
    else
      && answers == w.source.value(seq(|lookahead|, i requires 0 <= i < |lookahead| => lookahead[i].publicKey))
      && summaries == w.summaries(seq(|answers|, i requires 0 <= i < |answers| => answers[i].validatorPubkey))
  }

  lemma AskedIs(w: World, lookahead: seq<ProposerDuty>, answers: seq<RegistryEntry>, summaries: seq<ValidatorSummary>)
    requires Asked(w, lookahead, answers, summaries)
    ensures Answers(w, lookahead) == answers
    ensures w.source.Some? ==> Summaries(w, lookahead) == summaries
  {
    assert seq(|lookahead|, i requires 0 <= i < |lookahead| => lookahead[i].publicKey) == Keys(lookahead);
    if w.source.Some? {
      assert seq(|answers|, i requires 0 <= i < |answers| => answers[i].validatorPubkey) == EntryKeys(answers);
    }
  }

  lemma WindowIs(w: World, lookahead: seq<ProposerDuty>, answers: seq<RegistryEntry>, summaries: seq<ValidatorSummary>)
    requires Asked(w, lookahead, answers, summaries)
    ensures WindowOf(w, lookahead) == Window(Written(answers, summaries), OperatorsOf(Retain(answers, summaries)))
  {
    AskedIs(w, lookahead, answers, summaries);
  }

  /** After syncing a lookahead a key is registered as `r` exactly if the last answer about it makes it
      so, or if the answers register nothing for it and it was so before. */
  lemma WindowRegistersIff(w: World, lookahead: seq<ProposerDuty>, answers: seq<RegistryEntry>,
                           summaries: seq<ValidatorSummary>, st: DbState, k: BlsPublicKey, r: Registration)
    requires Asked(w, lookahead, answers, summaries)
    ensures var m := Merge(st, WindowOf(w, lookahead)).registrations;
            k in m && m[k] == r <==>
            || (exists i :: Registers(answers, summaries, k, r, i))
            || (k in st.registrations && st.registrations[k] == r && forall r', i :: !Registers(answers, summaries, k, r', i))
  {
    WindowIs(w, lookahead, answers, summaries);
    var written := Written(answers, summaries);
    WrittenIff(answers, summaries, k, r);
    forall r', i | Registers(answers, summaries, k, r', i) ensures k in written {
      WrittenIff(answers, summaries, k, r');
    }
    if k in written {
      WrittenIff(answers, summaries, k, written[k]);
    }
  }

  /** And an operator is known as `op` exactly if the last reported answer for it makes it so, or there is
      none and it was so before. */
  lemma WindowAppointsIff(w: World, lookahead: seq<ProposerDuty>, answers: seq<RegistryEntry>,
                          summaries: seq<ValidatorSummary>, st: DbState, a: Address, op: Operator)
    requires Asked(w, lookahead, answers, summaries)
    ensures var m := Merge(st, WindowOf(w, lookahead)).operators;
            a in m && m[a] == op <==>
            || (exists i :: Appoints(answers, summaries, a, op, i))
            || (a in st.operators && st.operators[a] == op && forall op', i :: !Appoints(answers, summaries, a, op', i))
  {
    WindowIs(w, lookahead, answers, summaries);
    var appointed := OperatorsOf(Retain(answers, summaries));
    AppointedIff(answers, summaries, a, op);
    forall op', i | Appoints(answers, summaries, a, op', i) ensures a in appointed {
      AppointedIff(answers, summaries, a, op');
    }
    if a in appointed {
      AppointedIff(answers, summaries, a, appointed[a]);
    }
  }

  // ---------- A range of epochs ----------

  /** The window of each epoch. */
  ghost function Windows(w: World): nat -> Window {
    (epoch: nat) => WindowOf(w, w.ExtendedLookahead(epoch))
  }

  /** The windows of epochs `lo` up to, not including, `hi`. */
  ghost function SyncRange(windows: nat -> Window, st: DbState, lo: nat, hi: nat): DbState
    decreases hi
  {
    if lo >= hi then st else Merge(SyncRange(windows, st, lo, hi - 1), windows(hi - 1))
  }

  lemma EmptyRange(windows: nat -> Window, st: DbState, lo: nat, hi: nat)
    requires lo >= hi
    ensures SyncRange(windows, st, lo, hi) == st
  {
  }

  lemma MergeTwice(st: DbState, window: Window)
    ensures Merge(Merge(st, window), window) == Merge(st, window)
  {
    assert st.registrations + window.registrations + window.registrations == st.registrations + window.registrations;
    assert st.operators + window.operators + window.operators == st.operators + window.operators;
  }

  lemma RangeReplaysLast(windows: nat -> Window, st: DbState, lo: nat, mid: nat)
    requires lo <= mid
    ensures SyncRange(windows, SyncRange(windows, st, lo, mid + 1), mid, mid + 1) == SyncRange(windows, st, lo, mid + 1)
  {
    MergeTwice(SyncRange(windows, st, lo, mid), windows(mid));
    EmptyRange(windows, SyncRange(windows, st, lo, mid + 1), mid, mid);
  }

  lemma OneMoreWindow(windows: nat -> Window, a: DbState, lo: nat, b: DbState, lo': nat, hi: nat)
    requires lo < hi && lo' < hi && SyncRange(windows, a, lo, hi - 1) == SyncRange(windows, b, lo', hi - 1)
    ensures SyncRange(windows, a, lo, hi) == SyncRange(windows, b, lo', hi)
  {
  }

  /** Stopping after epoch `mid` and starting again with it replays its window and changes nothing. */
  lemma {:induction false} RangesJoin(windows: nat -> Window, st: DbState, lo: nat, mid: nat, hi: nat)
    requires lo <= mid < hi
    ensures SyncRange(windows, SyncRange(windows, st, lo, mid + 1), mid, hi) == SyncRange(windows, st, lo, hi)
    decreases hi
  {
    if hi == mid + 1 {
      RangeReplaysLast(windows, st, lo, mid);
    } else {
      RangesJoin(windows, st, lo, mid, hi - 1);
      OneMoreWindow(windows, SyncRange(windows, st, lo, mid + 1), mid, st, lo, hi);
    }
  }

  lemma {:induction false} RangeIgnoresSyncState(windows: nat -> Window, st: DbState, state: SyncStateUpdate, lo: nat, hi: nat)
    ensures SyncRange(windows, st.(syncState := state), lo, hi) == SyncRange(windows, st, lo, hi).(syncState := state)
    decreases hi
  {
    if lo < hi {
      RangeIgnoresSyncState(windows, st, state, lo, hi - 1);
    }
  }

  // ---------- Transitions ----------

  function UpdateOf(t: EpochTransition): SyncStateUpdate {
    SyncStateUpdate(t.blockNumber, t.epoch, t.slot)
  }

  /** Handling one transition when `last` is the last epoch synced. */
  ghost function Transition(windows: nat -> Window, st: DbState, last: nat, t: EpochTransition): DbState {
    SyncRange(windows, st, last, t.epoch + 1).(syncState := UpdateOf(t))
  }

  /** The loop over `last..=epoch` stops at `epoch + 1`, or at once if the range is empty. */
  lemma LoopIsTransition(windows: nat -> Window, st: DbState, last: nat, t: EpochTransition, reached: nat)
    requires reached == if last <= t.epoch then t.epoch + 1 else last
    ensures Transition(windows, st, last, t) == SyncRange(windows, st, last, reached).(syncState := UpdateOf(t))
  {
    if last > t.epoch {
      EmptyRange(windows, st, last, last);
      EmptyRange(windows, st, last, t.epoch + 1);
    }
  }

  ghost function Transitions(windows: nat -> Window, st: DbState, last: nat, ts: seq<EpochTransition>): DbState {
    if ts == [] then st
    else
      var n := |ts| - 1;
      Transition(windows, Transitions(windows, st, last, ts[..n]), LastEpoch(last, ts[..n]), ts[n])
  }

  ghost function LastEpoch(last: nat, ts: seq<EpochTransition>): nat {
    if ts == [] then last else ts[|ts| - 1].epoch
  }

  lemma TransitionsGrow(windows: nat -> Window, st: DbState, last: nat, ts: seq<EpochTransition>, t: EpochTransition)
    ensures Transitions(windows, st, last, ts + [t]) ==
            Transition(windows, Transitions(windows, st, last, ts), LastEpoch(last, ts), t)
  {
    assert (ts + [t])[..|ts|] == ts;
  }

  // ---------- Which lookaheads are synced ----------

  /** The lookaheads of epochs `lo` up to, not including, `hi`. */
  ghost function Lookaheads(w: World, lo: nat, hi: nat): seq<seq<ProposerDuty>>
    decreases hi
  {
    if lo >= hi then [] else Lookaheads(w, lo, hi - 1) + [w.ExtendedLookahead(hi - 1)]
  }

  /** The database, and the lookaheads synced so far. */
  datatype Progress = Progress(db: DbState, passed: seq<seq<ProposerDuty>>)

  /** One epoch after the other, from `lo` up to, not including, `hi`. */
  ghost function SyncUpTo(windows: nat -> Window, w: World, p: Progress, lo: nat, hi: nat): Progress
    decreases hi
  {
    if lo >= hi then p
    else
      var q := SyncUpTo(windows, w, p, lo, hi - 1);
      Progress(Merge(q.db, windows(hi - 1)), q.passed + [w.ExtendedLookahead(hi - 1)])
  }

  lemma {:induction false} SyncUpToDb(windows: nat -> Window, w: World, p: Progress, lo: nat, hi: nat)
    ensures SyncUpTo(windows, w, p, lo, hi).db == SyncRange(windows, p.db, lo, hi)
    decreases hi
  {
    if lo < hi {
      SyncUpToDb(windows, w, p, lo, hi - 1);
    }
  }

  lemma {:induction false} SyncUpToPassed(windows: nat -> Window, w: World, p: Progress, lo: nat, hi: nat)
    ensures SyncUpTo(windows, w, p, lo, hi).passed == p.passed + Lookaheads(w, lo, hi)
    decreases hi
  {
    if lo < hi {
      SyncUpToPassed(windows, w, p, lo, hi - 1);
      Associates(p.passed, Lookaheads(w, lo, hi - 1), [w.ExtendedLookahead(hi - 1)]);
    }
  }

  lemma Associates<T>(a: seq<T>, b: seq<T>, c: seq<T>)
    ensures a + (b + c) == a + b + c
  {
  }

  /** The lookaheads synced by handling `ts` when `last` is the last epoch synced. */
  ghost function AllLookaheads(w: World, last: nat, ts: seq<EpochTransition>): seq<seq<ProposerDuty>> {
    if ts == [] then []
    else
      var n := |ts| - 1;
      AllLookaheads(w, last, ts[..n]) + Lookaheads(w, LastEpoch(last, ts[..n]), ts[n].epoch + 1)
  }

  lemma LookaheadsGrow(w: World, given: seq<seq<ProposerDuty>>, last: nat, ts: seq<EpochTransition>, t: EpochTransition)
    ensures given + AllLookaheads(w, last, ts + [t]) ==
            given + AllLookaheads(w, last, ts) + Lookaheads(w, LastEpoch(last, ts), t.epoch + 1)
  {
    assert (ts + [t])[..|ts|] == ts;
  }

  /** `lookahead` is that of an epoch from `lo` to `hi`. */
  ghost predicate OfEpoch(w: World, lookahead: seq<ProposerDuty>, lo: nat, hi: nat) {
    exists e: nat :: lo <= e <= hi && lookahead == w.duties(e) + w.duties(e + 1)
  }

  /** Element by element: one lookahead for each epoch, with its duties and those of the next. */
  lemma {:induction false} LookaheadsAt(w: World, lo: nat, hi: nat)
    ensures |Lookaheads(w, lo, hi)| == if lo < hi then hi - lo else 0
    ensures forall i :: 0 <= i < |Lookaheads(w, lo, hi)| ==>
              Lookaheads(w, lo, hi)[i] == w.duties(lo + i) + w.duties(lo + i + 1)
    decreases hi
  {
    if lo < hi {
      LookaheadsAt(w, lo, hi - 1);
    }
  }

  lemma {:induction false} LookaheadsIff(w: World, lo: nat, hi: nat, lookahead: seq<ProposerDuty>)
    requires lo < hi
    ensures lookahead in Lookaheads(w, lo, hi) <==> OfEpoch(w, lookahead, lo, hi - 1)
    decreases hi
  {
    var front := Lookaheads(w, lo, hi - 1);
    assert lookahead in Lookaheads(w, lo, hi) <==> lookahead in front || lookahead == w.ExtendedLookahead(hi - 1);
    if lo < hi - 1 {
      LookaheadsIff(w, lo, hi - 1, lookahead);
    }
    if e: nat :| lo <= e <= hi - 1 && lookahead == w.duties(e) + w.duties(e + 1) && e != hi - 1 {
      assert OfEpoch(w, lookahead, lo, hi - 2);
    }
  }

  /** No epoch is skipped, and none outside the range is touched: if the initial epoch is not ahead of
      the transitions, exactly the lookaheads of the epochs from it to the last are synced. Each
      includes the duties of the epoch after its own. */
  lemma {:induction false} NoEpochSkipped(w: World, last: nat, ts: seq<EpochTransition>, lookahead: seq<ProposerDuty>)
    requires ts != [] && Forward(last, ts)
    ensures lookahead in AllLookaheads(w, last, ts) <==> OfEpoch(w, lookahead, last, LastEpoch(last, ts))
  {
    var n := |ts| - 1;
    var from, to: nat := LastEpoch(last, ts[..n]), ts[n].epoch;
    var front := AllLookaheads(w, last, ts[..n]);
    LookaheadsIff(w, from, to + 1, lookahead);
    assert lookahead in AllLookaheads(w, last, ts) <==> lookahead in front || OfEpoch(w, lookahead, from, to);
    if n > 0 {
      NoEpochSkipped(w, last, ts[..n], lookahead);
    }
    if e: nat :| last <= e <= to && lookahead == w.duties(e) + w.duties(e + 1) {
      assert if e < from then OfEpoch(w, lookahead, last, from) else OfEpoch(w, lookahead, from, to);
    }
  }

  ghost predicate Forward(last: nat, ts: seq<EpochTransition>) {
    && (forall i :: 0 <= i < |ts| ==> last <= ts[i].epoch)
    && (forall i, j :: 0 <= i < j < |ts| ==> ts[i].epoch <= ts[j].epoch)
  }

  lemma RangeAfterTransition(windows: nat -> Window, st: DbState, last: nat, mid: EpochTransition, hi: nat)
    requires last <= mid.epoch < hi
    ensures SyncRange(windows, Transition(windows, st, last, mid), mid.epoch, hi)
         == SyncRange(windows, st, last, hi).(syncState := UpdateOf(mid))
  {
    RangeIgnoresSyncState(windows, SyncRange(windows, st, last, mid.epoch + 1), UpdateOf(mid), mid.epoch, hi);
    RangesJoin(windows, st, last, mid.epoch, hi);
  }

  lemma TwoTransitions(windows: nat -> Window, st: DbState, last: nat, mid: EpochTransition, t: EpochTransition)
    requires last <= mid.epoch <= t.epoch
    ensures Transition(windows, Transition(windows, st, last, mid), mid.epoch, t) == Transition(windows, st, last, t)
  {
    RangeAfterTransition(windows, st, last, mid, t.epoch + 1);
  }

  /** Catching up equals stepping: however many transitions were seen on the way, the database ends
      up as after a single transition from the initial epoch to the last. */
  lemma {:induction false} CatchingUpIsStepping(windows: nat -> Window, st: DbState, last: nat, ts: seq<EpochTransition>)
    requires ts != [] && Forward(last, ts)
    ensures Transitions(windows, st, last, ts) == Transition(windows, st, last, ts[|ts| - 1])
  {
    var n := |ts| - 1;
    if n > 0 {
      CatchingUpIsStepping(windows, st, last, ts[..n]);
      TwoTransitions(windows, st, last, ts[n - 1], ts[n]);
    } else {
      assert Transitions(windows, st, last, ts[..n]) == st;
    }
  }

  // ---------- Last window wins ----------

  /** The registration that the windows `lo..hi` leave for `k`: that of the last window naming it. */
  ghost function LastWindowFor(windows: nat -> Window, lo: nat, hi: nat, k: BlsPublicKey): Option<Registration>
    decreases hi
  {
    if lo >= hi then None
    else if k in windows(hi - 1).registrations then Some(windows(hi - 1).registrations[k])
    else LastWindowFor(windows, lo, hi - 1, k)
  }

  lemma {:induction false} LastWindowWins(windows: nat -> Window, st: DbState, lo: nat, hi: nat, k: BlsPublicKey)
    ensures var m, last := SyncRange(windows, st, lo, hi).registrations, LastWindowFor(windows, lo, hi, k);
            if last.Some? then k in m && m[k] == last.value
            else (k in m <==> k in st.registrations) && (k in m ==> m[k] == st.registrations[k])
    decreases hi
  {
    if lo < hi {
      LastWindowWins(windows, st, lo, hi - 1, k);
    }
  }

  // ---------- Referential integrity ----------

  /** Every registration's operator is known, so a listing of validators drops nothing. */
  ghost predicate NoDangling(st: DbState) {
    forall k :: k in st.registrations ==> st.registrations[k].operator in st.operators
  }

  lemma NothingDropped(st: DbState)
    ensures NoDangling(st) <==> Listed(st, st.registrations.Keys) == st.registrations.Keys
  {
    assert NoDangling(st) ==> forall k :: k in st.registrations ==> LookupPubkey(st, k).Some?;
    if Listed(st, st.registrations.Keys) == st.registrations.Keys {
      forall k | k in st.registrations ensures st.registrations[k].operator in st.operators {
        assert k in Listed(st, st.registrations.Keys);
      }
    }
  }

  /** The rpc endpoint in the last of the entries for signer `a`. */
  ghost function LastRpc(entries: seq<RegistryEntry>, a: Address): Option<Url> {
    if entries == [] then None
    else if entries[|entries| - 1].operator == a then Some(entries[|entries| - 1].rpcEndpoint)
    else LastRpc(entries[..|entries| - 1], a)
  }

  lemma {:induction false} OperatorsAt(entries: seq<RegistryEntry>, a: Address)
    ensures a in OperatorsOf(entries) <==> LastRpc(entries, a).Some?
    ensures a in OperatorsOf(entries) ==> OperatorsOf(entries)[a] == Operator(a, LastRpc(entries, a).value, [], [])
    ensures a in OperatorsOf(entries) <==> exists i :: 0 <= i < |entries| && entries[i].operator == a
  {
    if entries != [] {
      var n := |entries| - 1;
      OperatorsAt(entries[..n], a);
      assert forall i :: 0 <= i < n ==> entries[..n][i] == entries[i];
    }
  }

  /** After a window, every retained entry's validator is registered under an operator that is known,
      and the entry's own operator carries the endpoint of the last retained entry for it. */
  lemma WindowIntegrity(w: World, st: DbState, lookahead: seq<ProposerDuty>, i: nat)
    requires i < |Retained(w, lookahead)|
    ensures var after, e := Merge(st, WindowOf(w, lookahead)), Retained(w, lookahead)[i];
            && e.validatorPubkey in after.registrations
            && LookupPubkey(after, e.validatorPubkey).Some?
            && e.operator in after.operators
            && LastRpc(Retained(w, lookahead), e.operator) == Some(after.operators[e.operator].rpcEndpoint)
  {
    var entries, regs := Retained(w, lookahead), NewRegistrations(w, lookahead);
    var k := entries[i].validatorPubkey;
    RetainedAreReported(Answers(w, lookahead), Summaries(w, lookahead));
    RegistrationsAligned(entries, Summaries(w, lookahead));
    assert regs[i].validatorPubkey == k;
    WriteRegistrationsAt(map[], regs, k);
    OperatorsAt(entries, entries[i].operator);
    OperatorOfWrite(w, lookahead, k);
  }

  ghost predicate Closed(window: Window) {
    forall k :: k in window.registrations ==> window.registrations[k].operator in window.operators
  }

  /** Whoever a window registers gets an operator that the same window registers. */
  lemma OperatorOfWrite(w: World, lookahead: seq<ProposerDuty>, k: BlsPublicKey)
    ensures var window := WindowOf(w, lookahead);
            k in window.registrations ==> window.registrations[k].operator in window.operators
  {
    var entries, regs := Retained(w, lookahead), NewRegistrations(w, lookahead);
    WriteRegistrationsAt(map[], regs, k);
    RetainedAreReported(Answers(w, lookahead), Summaries(w, lookahead));
    RegistrationsAligned(entries, Summaries(w, lookahead));
    var last := LastFor(regs, k);
    if last.Some? {
      var j :| 0 <= j < |regs| && regs[j] == last.value;
      OperatorsAt(entries, entries[j].operator);
    }
  }

  lemma WindowsAreClosed(w: World)
    ensures forall e: nat :: Closed(Windows(w)(e))
  {
    forall e: nat ensures Closed(Windows(w)(e)) {
      forall k | k in Windows(w)(e).registrations
        ensures Windows(w)(e).registrations[k].operator in Windows(w)(e).operators
      {
        OperatorOfWrite(w, w.ExtendedLookahead(e), k);
      }
    }
  }

  lemma {:induction false} RangeKeepsIntegrity(windows: nat -> Window, st: DbState, lo: nat, hi: nat)
    requires NoDangling(st) && forall e: nat :: Closed(windows(e))
    ensures NoDangling(SyncRange(windows, st, lo, hi))
    decreases hi
  {
    if lo < hi {
      RangeKeepsIntegrity(windows, st, lo, hi - 1);
      assert Closed(windows(hi - 1));
    }
  }

  lemma {:induction false} TransitionsKeepIntegrity(windows: nat -> Window, st: DbState, last: nat, ts: seq<EpochTransition>)
    requires NoDangling(st) && forall e: nat :: Closed(windows(e))
    ensures NoDangling(Transitions(windows, st, last, ts))
  {
    if ts != [] {
      var n := |ts| - 1;
      var before := Transitions(windows, st, last, ts[..n]);
      TransitionsKeepIntegrity(windows, st, last, ts[..n]);
      RangeKeepsIntegrity(windows, before, LastEpoch(last, ts[..n]), ts[n].epoch + 1);
    }
  }

  /** Over sync-only histories the listing of validators never drops a registration. */
  lemma SyncOnlyListsAll(w: World, last: nat, ts: seq<EpochTransition>)
    ensures var after := Transitions(Windows(w), DEFAULT_DB, last, ts);
            Listed(after, after.registrations.Keys) == after.registrations.Keys
  {
    WindowsAreClosed(w);
    TransitionsKeepIntegrity(Windows(w), DEFAULT_DB, last, ts);
    NothingDropped(Transitions(Windows(w), DEFAULT_DB, last, ts));
  }
}
