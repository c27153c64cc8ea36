/** The syncer and the API actor side by side, one small step at a time. The syncer takes a step per
    window; an API action may run whenever the state channel says the registry is synced. */
module SyncProtocol {
  import opened Primitives
  import opened MemoryDb
  import opened EpochStream
  import opened SyncSpec
  import opened Syncer
  import opened ValidatorIndex

  /** What the syncer is doing: about to load the stored sync state, waiting, or handling a transition
      with `next` the next epoch to sync. `before` is the database as the handling found it. */
  datatype Phase = Starting | Idle | Busy(target: EpochTransition, next: nat, before: DbState)

  datatype System = System(
    db: DbState,
    channel: SyncState,
    lastEpoch: nat,
    lastBlockNumber: nat,
    phase: Phase,
    /** The epochs whose duties have been passed to the lookahead sync. */
    covered: set<nat>)
  {
    /** The stored sync state is what the syncer's fields say. */
    ghost predicate Current() {
      db.syncState.epoch == lastEpoch && db.syncState.blockNumber == lastBlockNumber
    }
  }

  datatype Act =
    | Load
    | Begin(transition: EpochTransition)
    | SyncNext
    | Finish
    | Api(write: Write)

  /** The writes that the API actor issues. */
  ghost predicate IsApiWrite(w: Write) {
    w.Register? || w.Deregister? || w.RegisterOperator?
  }

  ghost predicate Enabled(s: System, act: Act) {
    match act
    case Load => s.phase.Starting?
    case Begin(_) => s.phase.Idle?
    case SyncNext => s.phase.Busy? && s.phase.next <= s.phase.target.epoch
    case Finish => s.phase.Busy? && s.phase.next > s.phase.target.epoch
    case Api(w) => s.channel == Synced && IsApiWrite(w)
  }

  ghost function Step(windows: nat -> Window, s: System, act: Act): System
    requires Enabled(s, act)
  {
    match act
    case Load => s.(lastEpoch := s.db.syncState.epoch, lastBlockNumber := s.db.syncState.blockNumber, phase := Idle)
    case Begin(t) => s.(channel := Syncing, phase := Busy(t, s.lastEpoch, s.db))
    case SyncNext =>
      var e := s.phase.next;
      s.(db := Merge(s.db, windows(e)), phase := s.phase.(next := e + 1), covered := s.covered + {e, e + 1})
    case Finish =>
      var t := s.phase.target;
      s.(db := s.db.(syncState := UpdateOf(t)), channel := Synced,
         lastEpoch := t.epoch, lastBlockNumber := t.blockNumber, phase := Idle)
    case Api(w) => s.(db := Apply(s.db, w))
  }

  /** A new syncer reports synced, although it has not loaded the stored sync state. */
  ghost function New(db: DbState): System {
    System(db, Synced, 0, 0, Starting, {})
  }

  ghost predicate Possible(windows: nat -> Window, db: DbState, acts: seq<Act>)
    decreases |acts|, 0
  {
    acts == [] ||
    (Possible(windows, db, acts[..|acts| - 1]) && Enabled(After(windows, db, acts[..|acts| - 1]), acts[|acts| - 1]))
  }

  ghost function After(windows: nat -> Window, db: DbState, acts: seq<Act>): System
    requires Possible(windows, db, acts)
    decreases |acts|, 1
  {
    if acts == [] then New(db)
    else Step(windows, After(windows, db, acts[..|acts| - 1]), acts[|acts| - 1])
  }

  /** The transitions that the stream has delivered. */
  ghost function Begun(acts: seq<Act>): seq<EpochTransition> {
    if acts == [] then []
    else Begun(acts[..|acts| - 1]) + if acts[|acts| - 1].Begin? then [acts[|acts| - 1].transition] else []
  }

  // ---------- The invariant ----------

  /** Nothing but the API has touched the database. */
  ghost predicate StartingInvariant(s: System, db: DbState, ts: seq<EpochTransition>) {
    && s.channel == Synced && s.lastEpoch == 0 && s.lastBlockNumber == 0
    && s.db.syncState == db.syncState && ts == [] && s.covered == {}
  }

  ghost predicate IdleInvariant(s: System, start: nat, ts: seq<EpochTransition>) {
    && s.channel == Synced && s.Current()
    && s.lastEpoch == LastEpoch(start, ts)
  }

  /** The windows from the last epoch on have been applied to what the handling found, whether or not
      the transition is ahead of the last epoch. */
  ghost predicate BusyInvariant(windows: nat -> Window, s: System, start: nat, ts: seq<EpochTransition>)
    requires s.phase.Busy?
  {
    && s.channel == Syncing && ts != [] && s.phase.target == ts[|ts| - 1]
    && s.lastEpoch == LastEpoch(start, ts[..|ts| - 1])
    && s.lastEpoch <= s.phase.next
    && (s.phase.next <= s.phase.target.epoch + 1 || s.phase.next == s.lastEpoch)
    && s.db == SyncRange(windows, s.phase.before, s.lastEpoch, s.phase.next)
  }

  ghost predicate Invariant(windows: nat -> Window, s: System, db: DbState, ts: seq<EpochTransition>) {
    match s.phase
    case Starting => StartingInvariant(s, db, ts)
    case Idle => IdleInvariant(s, db.syncState.epoch, ts)
    case Busy(_, _, _) => BusyInvariant(windows, s, db.syncState.epoch, ts)
  }

  lemma BeginKeeps(windows: nat -> Window, s: System, db: DbState, ts: seq<EpochTransition>, t: EpochTransition)
    requires Invariant(windows, s, db, ts) && Enabled(s, Begin(t))
    ensures Invariant(windows, Step(windows, s, Begin(t)), db, ts + [t])
  {
    assert (ts + [t])[..|ts|] == ts && (ts + [t])[|ts|] == t;
    EmptyRange(windows, s.db, s.lastEpoch, s.lastEpoch);
  }

  lemma StepKeeps(windows: nat -> Window, s: System, db: DbState, ts: seq<EpochTransition>, act: Act)
    requires Invariant(windows, s, db, ts) && Enabled(s, act)
    ensures Invariant(windows, Step(windows, s, act), db, ts + if act.Begin? then [act.transition] else [])
  {
    if act.Begin? {
      BeginKeeps(windows, s, db, ts, act.transition);
    } else {
      assert ts + [] == ts;
    }
  }

  /** Whatever the syncer and the API do in whatever order, and whatever transitions arrive. */
  lemma {:induction false} ReachableInvariant(windows: nat -> Window, db: DbState, acts: seq<Act>)
    requires Possible(windows, db, acts)
    ensures Invariant(windows, After(windows, db, acts), db, Begun(acts))
  {
    if acts != [] {
      var front, act := acts[..|acts| - 1], acts[|acts| - 1];
      ReachableInvariant(windows, db, front);
      StepKeeps(windows, After(windows, db, front), db, Begun(front), act);
    }
  }

  // ---------- What an API action sees ----------

  lemma {:induction false} LoadedIff(windows: nat -> Window, db: DbState, acts: seq<Act>)
    requires Possible(windows, db, acts)
    ensures After(windows, db, acts).phase.Starting? <==> Load !in acts
  {
    if acts != [] {
      var front, act := acts[..|acts| - 1], acts[|acts| - 1];
      LoadedIff(windows, db, front);
      assert acts == front + [act];
    }
  }

  /** Whenever an API action can run, no transition is half done; and the stored sync state is the
      syncer's exactly when that has been loaded, or was zero to begin with. */
  lemma ApiSeesSyncedStateIff(windows: nat -> Window, db: DbState, acts: seq<Act>, w: Write)
    requires Possible(windows, db, acts) && Enabled(After(windows, db, acts), Api(w))
    ensures !After(windows, db, acts).phase.Busy?
    ensures After(windows, db, acts).Current() <==>
            Load in acts || (db.syncState.epoch == 0 && db.syncState.blockNumber == 0)
    ensures Load in acts ==> After(windows, db, acts).lastEpoch == LastEpoch(db.syncState.epoch, Begun(acts))
  {
    ReachableInvariant(windows, db, acts);
    LoadedIff(windows, db, acts);
  }

  /** Restarted on a database synced up to epoch 5, the registry serves the API before it knows. */
  lemma ApiMayRunBeforeLoading(windows: nat -> Window, operator: Operator)
    ensures var db, act := DEFAULT_DB.(syncState := SyncStateUpdate(160, 5, 160)), Api(RegisterOperator(operator));
            && Possible(windows, db, [act])
            && Enabled(After(windows, db, []), act)
            && !After(windows, db, []).Current() && !After(windows, db, [act]).Current()
  {
    var db, act := DEFAULT_DB.(syncState := SyncStateUpdate(160, 5, 160)), Api(RegisterOperator(operator));
    assert [act][..0] == [];
    assert Possible(windows, db, []);
  }

  /** Handling a transition is atomic towards the API: whatever the interleaving, finishing leaves the
      database as a single uninterrupted transition from the state that the handling found. */
  lemma FinishIsAtomic(windows: nat -> Window, db: DbState, acts: seq<Act>)
    requires Possible(windows, db, acts) && Enabled(After(windows, db, acts), Finish)
    ensures var s := After(windows, db, acts);
            Step(windows, s, Finish).db == Transition(windows, s.phase.before, s.lastEpoch, s.phase.target)
  {
    ReachableInvariant(windows, db, acts);
    var s := After(windows, db, acts);
    LoopIsTransition(windows, s.phase.before, s.lastEpoch, s.phase.target, s.phase.next);
  }

  // ---------- Epochs in order ----------

  lemma IncreasingPrefix(ts: seq<EpochTransition>, t: EpochTransition)
    requires Increasing(ts + [t])
    ensures Increasing(ts) && (ts != [] ==> ts[|ts| - 1].epoch < t.epoch)
  {
    var all := ts + [t];
    assert all[|ts|] == t && forall i :: 0 <= i < |ts| ==> all[i] == ts[i];
  }

  /** With epochs in order, the distance to a new epoch, a `u64` difference, wraps around exactly for
      the first transition if the loaded epoch is ahead of it. */
  lemma EpochDistanceIsNaturalIff(windows: nat -> Window, db: DbState, acts: seq<Act>, t: EpochTransition)
    requires Possible(windows, db, acts) && Enabled(After(windows, db, acts), Begin(t))
    requires Increasing(Begun(acts) + [t])
    ensures After(windows, db, acts).lastEpoch <= t.epoch <==> Begun(acts) != [] || db.syncState.epoch <= t.epoch
  {
    ReachableInvariant(windows, db, acts);
    IncreasingPrefix(Begun(acts), t);
  }

  /** They come in increasing order, the first not behind the loaded epoch. */
  ghost predicate InOrder(start: nat, ts: seq<EpochTransition>) {
    Increasing(ts) && (ts != [] ==> start <= ts[0].epoch)
  }

  lemma InOrderPrefix(start: nat, ts: seq<EpochTransition>, t: EpochTransition)
    requires InOrder(start, ts + [t])
    ensures InOrder(start, ts)
    ensures start <= LastEpoch(start, ts) <= t.epoch
  {
    IncreasingPrefix(ts, t);
    var all := ts + [t];
    assert all[|ts|] == t && forall i :: 0 <= i < |ts| ==> all[i] == ts[i];
  }

  /** Exactly the epochs from `lo` to `hi` have been covered. */
  ghost predicate Covers(s: System, lo: nat, hi: nat) {
    forall e: nat :: e in s.covered <==> lo <= e <= hi
  }

  ghost predicate NothingCovered(s: System) {
    s.covered == {}
  }

  /** Handled transitions cover the epochs from the loaded one to one past the last; the transition in
      progress covers up to the next epoch to sync. */
  ghost predicate Coverage(s: System, start: nat, ts: seq<EpochTransition>) {
    if s.phase.Busy? && ts != [] then
      if |ts| == 1 && s.phase.next == start then NothingCovered(s)
      else Covers(s, start, if s.phase.next == s.lastEpoch then s.lastEpoch + 1 else s.phase.next)
    else if ts == [] then NothingCovered(s)
    else Covers(s, start, s.lastEpoch + 1)
  }

  /** While a transition is in progress. */
  ghost predicate InProgress(s: System, start: nat, ts: seq<EpochTransition>) {
    && s.phase.Busy? && ts != [] && start <= s.lastEpoch <= s.phase.target.epoch
    && s.lastEpoch <= s.phase.next && (s.phase.next <= s.phase.target.epoch + 1 || s.phase.next == s.lastEpoch)
    && (|ts| == 1 ==> s.lastEpoch == start)
  }

  lemma ProgressInOrder(windows: nat -> Window, s: System, start: nat, ts: seq<EpochTransition>)
    requires s.phase.Busy? && BusyInvariant(windows, s, start, ts) && InOrder(start, ts)
    ensures InProgress(s, start, ts)
  {
    assert ts == ts[..|ts| - 1] + [s.phase.target];
    InOrderPrefix(start, ts[..|ts| - 1], s.phase.target);
  }

  lemma SyncNextCovers(windows: nat -> Window, s: System, start: nat, ts: seq<EpochTransition>)
    requires InProgress(s, start, ts) && Enabled(s, SyncNext) && Coverage(s, start, ts)
    ensures Coverage(Step(windows, s, SyncNext), start, ts)
  {
  }

  lemma FinishCovers(windows: nat -> Window, s: System, start: nat, ts: seq<EpochTransition>)
    requires InProgress(s, start, ts) && Enabled(s, Finish) && Coverage(s, start, ts)
    ensures Coverage(Step(windows, s, Finish), start, ts)
  {
  }

  lemma BeginCovers(windows: nat -> Window, s: System, start: nat, ts: seq<EpochTransition>, t: EpochTransition)
    requires s.phase.Idle? && IdleInvariant(s, start, ts) && Coverage(s, start, ts)
    requires InOrder(start, ts + [t])
    ensures Coverage(Step(windows, s, Begin(t)), start, ts + [t])
  {
    InOrderPrefix(start, ts, t);
  }

  lemma StepKeepsCoverage(windows: nat -> Window, s: System, db: DbState, ts: seq<EpochTransition>, act: Act)
    requires Invariant(windows, s, db, ts) && Enabled(s, act) && Coverage(s, db.syncState.epoch, ts)
    requires InOrder(db.syncState.epoch, ts + if act.Begin? then [act.transition] else [])
    ensures Coverage(Step(windows, s, act), db.syncState.epoch, ts + if act.Begin? then [act.transition] else [])
  {
    assert ts + [] == ts;
    match act
    case Begin(t) => BeginCovers(windows, s, db.syncState.epoch, ts, t);
    case SyncNext =>
      ProgressInOrder(windows, s, db.syncState.epoch, ts);
      SyncNextCovers(windows, s, db.syncState.epoch, ts);
    case Finish =>
      ProgressInOrder(windows, s, db.syncState.epoch, ts);
      FinishCovers(windows, s, db.syncState.epoch, ts);
    case _ =>
  }

  lemma {:induction false} ReachableCoverage(windows: nat -> Window, db: DbState, acts: seq<Act>)
    requires Possible(windows, db, acts) && InOrder(db.syncState.epoch, Begun(acts))
    ensures Coverage(After(windows, db, acts), db.syncState.epoch, Begun(acts))
  {
    if acts != [] {
      var front, act := acts[..|acts| - 1], acts[|acts| - 1];
      if act.Begin? {
        InOrderPrefix(db.syncState.epoch, Begun(front), act.transition);
      } else {
        assert Begun(acts) == Begun(front) + [] == Begun(front);
      }
      ReachableInvariant(windows, db, front);
      ReachableCoverage(windows, db, front);
      StepKeepsCoverage(windows, After(windows, db, front), db, Begun(front), act);
    }
  }

  /** Whenever an API action can run, exactly the epochs from the loaded one to one past the last have
      been covered, or none if no transition has arrived yet. */
  lemma ApiSeesNoEpochSkipped(windows: nat -> Window, db: DbState, acts: seq<Act>, w: Write)
    requires Possible(windows, db, acts) && InOrder(db.syncState.epoch, Begun(acts))
    requires Enabled(After(windows, db, acts), Api(w))
    ensures var s := After(windows, db, acts);
            if Begun(acts) == [] then NothingCovered(s) else Covers(s, db.syncState.epoch, s.lastEpoch + 1)
  {
    ReachableInvariant(windows, db, acts);
    ReachableCoverage(windows, db, acts);
  }
}
