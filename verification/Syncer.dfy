/** `Syncer`: keeps the database in step with the chain, one epoch transition at a time. */
module Syncer {
  import opened Primitives
  import opened MemoryDb
  import opened Batches
  import opened RegistryActor
  import opened EpochStream
  import opened SyncSpec

  /** What the state channel tells the registry. */
  datatype SyncState = Syncing | Synced

  class Syncer {
    const world: World
    const db: InMemoryDb
    var state: SyncState
    /** The last known block number. */
    var lastBlockNumber: u64
    /** The last known epoch number. */
    var lastEpoch: u64

    /** Every lookahead that `SyncLookahead` has been given, in order. */
    ghost var passed: seq<seq<ProposerDuty>>

    constructor (world: World, db: InMemoryDb)
      ensures this.world == world && this.db == db && passed == []
      ensures state == Synced && lastBlockNumber == 0 && lastEpoch == 0
    {
      this.world, this.db := world, db;
      state, lastBlockNumber, lastEpoch, passed := Synced, 0, 0, [];
    }

    /** The fields describe what the database has stored. */
    ghost predicate UpToDate()
      reads this, db
    {
      db.syncState.epoch == lastEpoch && db.syncState.blockNumber == lastBlockNumber
    }

    /** Starting from `before` with `start` as the last epoch, the transitions `ts` have been handled. */
    ghost predicate Handled(before: DbState, start: nat, ts: seq<EpochTransition>, given: seq<seq<ProposerDuty>>)
      reads this, db
    {
      && db.Valid() && UpToDate() && lastEpoch == LastEpoch(start, ts)
      && db.View() == Transitions(Windows(world), before, start, ts)
      && passed == given + AllLookaheads(world, start, ts)
    }

    /** Loads the stored sync state, then handles every transition of the stream. */
    method Spawn(paStream: Source) returns (ghost ts: seq<EpochTransition>)
      requires db.Valid()
      modifies this, db
      ensures state == old(state) || state == Synced
      ensures ts == Records(Events(paStream))
      ensures Handled(old(db.View()), old(db.syncState).epoch, ts, old(passed))
      ensures old(passed) <= passed && NoneSkipped(world, old(db.syncState).epoch, ts, passed[|old(passed)|..])
    {
      ghost var before, start, given := db.View(), db.syncState.epoch, passed;
      lastEpoch := db.syncState.epoch;
      lastBlockNumber := db.syncState.blockNumber;

      var epochStream := new EpochTransitionStream(paStream);
      ts := [];
      while true
        invariant epochStream.Valid() && fresh(epochStream) && epochStream.emitted == ts
        invariant epochStream.consumed + Events(epochStream.paStream) == Events(paStream)
        invariant Handled(before, start, ts, given)
        invariant state == old(state) || state == Synced
        decreases |epochStream.paStream|
      {
        var transition := epochStream.Next();
        if transition.None? {
          break;
        }
        RecordsIncrease(epochStream.consumed);
        OnNext(transition.value, before, start, ts, given);
        ts := ts + [transition.value];
      }
      assert epochStream.consumed == Events(paStream);
      RecordsSkipNone(world, given, start, epochStream.consumed);
    }

    /** The body of the stream loop. */
    method OnNext(transition: EpochTransition, ghost before: DbState, ghost start: nat, ghost ts: seq<EpochTransition>,
                  ghost given: seq<seq<ProposerDuty>>)
      requires Handled(before, start, ts, given) && Increasing(ts + [transition])
      modifies this, db
      ensures Handled(before, start, ts + [transition], given) && state == Synced
    {
      LookaheadsGrow(world, given, start, ts, transition);
      TransitionsGrow(Windows(world), before, start, ts, transition);
      OnTransition(transition);
    }

    /** Handles an epoch transition event. A transition behind the last epoch syncs nothing but still
        moves the sync state. */
    method OnTransition(transition: EpochTransition)
      requires db.Valid()
      modifies this, db
      ensures db.Valid() && state == Synced && UpToDate()
      ensures lastEpoch == transition.epoch && lastBlockNumber == transition.blockNumber
      ensures db.View() == Transition(Windows(world), old(db.View()), old(lastEpoch), transition)
      ensures db.syncState == SyncStateUpdate(transition.blockNumber, transition.epoch, transition.slot)
      ensures passed == old(passed) + Lookaheads(world, old(lastEpoch), transition.epoch + 1)
      ensures EpochByEpoch(world, old(passed), passed, old(lastEpoch), transition.epoch)
    {
      PassedOn(world, passed, lastEpoch, transition.epoch);
      state := Syncing;
      var tx := db.BeginSync();
      ghost var before, last := Now(), lastEpoch as nat;
      ghost var steps := (epoch: nat) => SyncUpTo(Windows(world), world, before, last, epoch);
      assert Steps(world, steps, last);
      ghost var reached := SyncEpochs(tx, transition.epoch, steps);
      SyncUpToDb(Windows(world), world, before, last, reached);
      SyncUpToPassed(Windows(world), world, before, last, reached);
      SyncUpToDb(Windows(world), world, before, last, transition.epoch + 1);
      SyncUpToPassed(Windows(world), world, before, last, transition.epoch + 1);
      LoopIsTransition(Windows(world), before.db, last, transition, reached);
      FinalizeSync(tx, UpdateOf(transition));
    }

    ghost function Now(): Progress
      reads this, db
    {
      Progress(db.View(), passed)
    }

    /** Syncs from the last known epoch to the new epoch, both included. The run goes through `steps`,
        which lead from one epoch to the next. */
    method SyncEpochs(tx: InMemorySyncTransaction, target: nat, ghost steps: nat -> Progress) returns (ghost reached: nat)
      requires tx.db == db && db.Valid() && Steps(world, steps, lastEpoch) && Now() == steps(lastEpoch)
      modifies db, this`passed
      ensures reached == if lastEpoch <= target then target + 1 else lastEpoch
      ensures db.Valid() && Now() == steps(reached)
    {
      var epoch: nat := lastEpoch;
      while epoch <= target
        invariant lastEpoch <= epoch && (epoch <= target + 1 || epoch == lastEpoch)
        invariant db.Valid() && Now() == steps(epoch)
      {
        SyncEpoch(tx, epoch, steps);
        epoch := epoch + 1;
      }
      reached := epoch;
    }

    /** The body of the epoch loop. */
    method SyncEpoch(tx: InMemorySyncTransaction, epoch: nat, ghost steps: nat -> Progress)
      requires tx.db == db && db.Valid() && Now() == steps(epoch)
      requires Steps(world, steps, lastEpoch) && lastEpoch <= epoch
      modifies db, this`passed
      ensures db.Valid() && Now() == steps(epoch + 1)
    {
      assert LeadsOn(world, steps, epoch);
      SyncLookahead(tx, world.ExtendedLookahead(epoch));
    }

    /** Sets the internal state, commits, and notifies the state channel. */
    method FinalizeSync(tx: InMemorySyncTransaction, update: SyncStateUpdate)
      requires tx.db == db && db.Valid()
      modifies this`lastEpoch, this`lastBlockNumber, this`state, db
      ensures db.Valid() && state == Synced && UpToDate()
      ensures lastEpoch == update.epoch && lastBlockNumber == update.blockNumber
      ensures db.View() == old(db.View()).(syncState := update)
    {
      lastEpoch := update.epoch;
      lastBlockNumber := update.blockNumber;
      tx.Commit(update);
      state := Synced;
    }

    /** Syncs a lookahead with the external data source. */
    method SyncLookahead(tx: InMemorySyncTransaction, lookahead: seq<ProposerDuty>)
      requires tx.db == db && db.Valid()
      modifies db, this`passed
      ensures db.Valid()
      ensures db.View() == Merge(old(db.View()), WindowOf(world, lookahead))
      ensures passed == old(passed) + [lookahead]
    {
      passed := passed + [lookahead];
      if world.source.None? {
        NoSourceNoWrites(world, db.View(), lookahead);
        return;
      }
      var answers := world.source.value(Keys(lookahead));
      var summaries := world.summaries(EntryKeys(answers));
      var entries := RetainActive(answers, summaries);
      RetainedAreReported(answers, summaries);
      var registrations, operators := Convert(entries, summaries);
      WriteIsMerge(db.registrations, registrations);
      tx.RegisterValidators(registrations);
      RegisterOperators(tx, operators);
    }

    /** The operators of a hash map are written in no particular order. */
    method RegisterOperators(tx: InMemorySyncTransaction, operators: map<Address, Operator>)
      requires tx.db == db && db.Valid()
      requires forall a :: a in operators ==> operators[a].signer == a
      modifies db
      ensures db.Valid()
      ensures db.View() == old(db.View()).(operators := old(db.operators) + operators)
    {
      var left := operators.Keys;
      while left != {}
        invariant db.Valid() && left <= operators.Keys
        invariant db.View() == old(db.View()).(operators := old(db.operators) + (operators - left))
        decreases |left|
      {
        var a :| a in left;
        tx.RegisterOperator(operators[a]);
        assert operators - (left - {a}) == (operators - left)[a := operators[a]];
        left := left - {a};
      }
      assert operators - {} == operators;
    }
  }

  /** Syncing the lookahead of epoch `e` leads from the state at `e` to the state at `e + 1`. */
  ghost predicate LeadsOn(w: World, steps: nat -> Progress, e: nat) {
    var lookahead := w.duties(e) + w.duties(e + 1);
    steps(e + 1) == Progress(Merge(steps(e).db, WindowOf(w, lookahead)), steps(e).passed + [lookahead])
  }

  ghost predicate Steps(w: World, steps: nat -> Progress, last: nat) {
    forall e: nat :: last <= e ==> LeadsOn(w, steps, e)
  }

  /** From noisy events to the database in one statement: if the stored epoch is not ahead of the
      first transition, the syncer leaves the database as after one catch-up from the stored epoch to
      the highest epoch any event reached, with the sync state of the first event that reached it. */
  lemma PipelineIsOneCatchUp(windows: nat -> Window, before: DbState, start: nat, events: seq<PayloadAttribute>)
    requires var ts := Records(events); ts != [] && start <= ts[0].epoch
    ensures var ts := Records(events);
            && Transitions(windows, before, start, ts) == Transition(windows, before, start, ts[|ts| - 1])
            && ts[|ts| - 1].epoch == LastEpoch(start, ts) == HighestEpoch(events) >= start
  {
    RecordsIncrease(events);
    CatchingUpIsStepping(windows, before, start, Records(events));
  }

  /** The lookaheads in `passed` hold every duty of the epochs from `lo` to `hi`, and no other. */
  ghost predicate DutiesOf(w: World, passed: seq<seq<ProposerDuty>>, lo: nat, hi: nat) {
    && (forall e: nat, d :: lo <= e <= hi && d in w.duties(e) ==> exists i :: 0 <= i < |passed| && d in passed[i])
    && (forall i, d :: 0 <= i < |passed| && d in passed[i] ==> exists e: nat :: lo <= e <= hi && d in w.duties(e))
  }

  lemma DutiesOfLookaheads(w: World, passed: seq<seq<ProposerDuty>>, lo: nat, hi: nat)
    requires lo <= hi && forall lookahead :: lookahead in passed <==> OfEpoch(w, lookahead, lo, hi)
    ensures DutiesOf(w, passed, lo, hi + 1)
  {
    forall e: nat, d | lo <= e <= hi + 1 && d in w.duties(e) ensures exists i :: 0 <= i < |passed| && d in passed[i] {
      var from := if e <= hi then e else hi;
      assert OfEpoch(w, w.duties(from) + w.duties(from + 1), lo, hi);
      assert d in w.duties(from) + w.duties(from + 1);
    }
    forall i, d | 0 <= i < |passed| && d in passed[i] ensures exists e: nat :: lo <= e <= hi + 1 && d in w.duties(e) {
      assert OfEpoch(w, passed[i], lo, hi);
      var e: nat :| lo <= e <= hi && passed[i] == w.duties(e) + w.duties(e + 1);
      assert d in w.duties(e) || d in w.duties(e + 1);
    }
  }

  /** If the initial epoch is not ahead of the transitions, the duties of every epoch from it to one past
      the last are passed on, and no other. */
  ghost predicate NoneSkipped(w: World, start: nat, ts: seq<EpochTransition>, passed: seq<seq<ProposerDuty>>) {
    ts != [] && start <= ts[0].epoch ==> DutiesOf(w, passed, start, ts[|ts| - 1].epoch + 1)
  }

  lemma ForwardSkipsNone(w: World, start: nat, ts: seq<EpochTransition>)
    requires Increasing(ts)
    ensures NoneSkipped(w, start, ts, AllLookaheads(w, start, ts))
  {
    if ts != [] && start <= ts[0].epoch {
      forall lookahead
        ensures lookahead in AllLookaheads(w, start, ts) <==> OfEpoch(w, lookahead, start, LastEpoch(start, ts))
      {
        NoEpochSkipped(w, start, ts, lookahead);
      }
      DutiesOfLookaheads(w, AllLookaheads(w, start, ts), start, LastEpoch(start, ts));
    }
  }

  lemma RecordsSkipNone(w: World, given: seq<seq<ProposerDuty>>, start: nat, events: seq<PayloadAttribute>)
    ensures var ts := Records(events);
            NoneSkipped(w, start, ts, (given + AllLookaheads(w, start, ts))[|given|..])
  {
    RecordsIncrease(events);
    ForwardSkipsNone(w, start, Records(events));
    var all := AllLookaheads(w, start, Records(events));
    assert (given + all)[|given|..] == all;
  }

  /** From `given` to `passed` one lookahead is added for each epoch from `lo` to `hi`, in order: its
      duties and those of the next epoch. */
  ghost predicate EpochByEpoch(w: World, given: seq<seq<ProposerDuty>>, passed: seq<seq<ProposerDuty>>, lo: nat, hi: nat) {
    && given <= passed
    && var added := passed[|given|..];
       && |added| == (if lo <= hi then hi + 1 - lo else 0)
       && forall i :: 0 <= i < |added| ==> added[i] == w.duties(lo + i) + w.duties(lo + i + 1)
  }

  lemma PassedOn(w: World, given: seq<seq<ProposerDuty>>, lo: nat, hi: nat)
    ensures EpochByEpoch(w, given, given + Lookaheads(w, lo, hi + 1), lo, hi)
  {
    LookaheadsAt(w, lo, hi + 1);
    assert (given + Lookaheads(w, lo, hi + 1))[|given|..] == Lookaheads(w, lo, hi + 1);
  }

  lemma NoSourceNoWrites(w: World, st: DbState, lookahead: seq<ProposerDuty>)
    requires w.source.None?
    ensures Merge(st, WindowOf(w, lookahead)) == st
  {
    assert st.registrations + map[] == st.registrations && st.operators + map[] == st.operators;
  }

  /** `entries.retain(..)`. */
  method RetainActive(entries: seq<RegistryEntry>, summaries: seq<ValidatorSummary>) returns (kept: seq<RegistryEntry>)
    ensures kept == Retain(entries, summaries)
  {
    kept := [];
    for i := 0 to |entries|
      invariant kept == Retain(entries[..i], summaries)
    {
      assert entries[..i + 1][..i] == entries[..i];
      if Reported(summaries, entries[i].validatorPubkey) {
        kept := kept + [entries[i]];
      }
    }
    assert entries[..|entries|] == entries;
  }

  /** Builds the registrations and, on the side, one operator per signer. Every retained entry has a
      summary, so looking up its index cannot fail. */
  method Convert(entries: seq<RegistryEntry>, summaries: seq<ValidatorSummary>)
    returns (registrations: seq<Registration>, operators: map<Address, Operator>)
    requires AllReported(entries, summaries)
    ensures registrations == RegistrationsOf(entries, summaries)
    ensures operators == OperatorsOf(entries)
    ensures forall a :: a in operators ==> operators[a].signer == a
  {
    registrations, operators := [], map[];
    for i := 0 to |entries|
      invariant registrations == RegistrationsOf(entries[..i], summaries)
      invariant operators == OperatorsOf(entries[..i])
      invariant forall a :: a in operators ==> operators[a].signer == a
    {
      assert entries[..i + 1][..i] == entries[..i];
      var validatorIndex := FirstIndex(summaries, entries[i].validatorPubkey);
      assert validatorIndex.Some?;
      operators := operators[entries[i].operator := ToOperator(entries[i])];
      registrations := registrations + [ToRegistration(entries[i], validatorIndex.value)];
    }
    assert entries[..|entries|] == entries;
  }
}
