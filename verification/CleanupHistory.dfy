/** `cleanup()` as calls in a history: when it is safe to call, how many calls of an epoch clear all
    due operators, and that one call need not. */
module CleanupHistory {
  import opened Evm
  import opened EpochGrid
  import opened PauseableSet
  import opened CleanupPass
  import opened RegistrySpec
  import opened Lifecycle

  // ---------- When cleanup is safe to call ----------

  ghost predicate CleanupAccepted(cfg: Config, calls: seq<Call>, clock: uint48) {
    CleanupCall(cfg, Run(cfg, calls), cfg.grid.Now(clock)).Ok?
  }

  /** Cleanup goes through after every history exactly when the current epoch start plus one
      duration, less a second, is a 48-bit number. */
  lemma CleanupSafeIff(cfg: Config, clock: uint48)
    requires cfg.grid.Running(clock)
    ensures (forall calls: seq<Call> :: Before(cfg.grid, calls, clock) ==> CleanupAccepted(cfg, calls, clock))
       <==> Fits(cfg.grid, cfg.grid.EpochOf(clock))
  {
    var g, k := cfg.grid, cfg.grid.EpochOf(clock);
    EpochStarts(g, clock);
    if Fits(g, k) {
      forall calls: seq<Call> | Before(g, calls, clock) ensures CleanupAccepted(cfg, calls, clock) {
        ReachableTimed(cfg, calls, clock);
        ReachableConsistent(cfg, calls);
        CleanupFits(g, Run(cfg, calls).entries, k);
      }
    } else {
      OverflowHistory(cfg, clock, g.Tick(k));
      assert !CleanupAccepted(cfg, [Joining(cfg, clock), Pausing(cfg, clock)], clock);
    }
  }

  /** Register and pause somebody in an epoch whose successor does not fit. */
  lemma OverflowHistory(cfg: Config, clock: uint48, now: uint48)
    requires cfg.grid.Running(clock) && now == cfg.grid.Tick(cfg.grid.EpochOf(clock))
    requires !Fits(cfg.grid, cfg.grid.EpochOf(clock))
    ensures var calls := [Joining(cfg, clock), Pausing(cfg, clock)];
            Before(cfg.grid, calls, clock) && !CleanupAccepted(cfg, calls, clock)
  {
    EpochStarts(cfg.grid, clock);
    LateEnough(cfg.grid, clock);
    JoinThenPause(cfg, clock, now);
    assert SweepOverflows([Entry(1, now, now - 1)], 0, now, cfg.grid.duration);
  }

  /** An epoch whose successor does not fit is not the first second of all time. */
  lemma LateEnough(g: Grid, clock: uint48)
    requires g.Running(clock) && !Fits(g, g.EpochOf(clock))
    ensures g.Tick(g.EpochOf(clock)) >= 2
  {
    var k := g.EpochOf(clock);
    assert g.Tick(0) == g.start;
    if k > 0 {
      g.TicksIncrease(0, k);
    }
  }

  // ---------- Enough calls clear everybody who is due ----------

  ghost predicate InEpoch(g: Grid, calls: seq<Call>, k: nat) {
    forall i :: 0 <= i < |calls| ==> g.Running(calls[i].clock) && g.EpochOf(calls[i].clock) == k
  }

  ghost function CleanupCount(calls: seq<Call>): nat {
    if calls == [] then 0
    else CleanupCount(calls[..|calls| - 1]) + if calls[|calls| - 1].command.Cleanup? then 1 else 0
  }

  /** In this epoch nobody becomes due: with epochs of one second, a pause would be due at once. */
  ghost predicate NobodyBecomesDue(g: Grid, calls: seq<Call>) {
    g.duration == 1 ==> forall i :: 0 <= i < |calls| ==> !calls[i].command.Pause?
  }

  lemma SubsetSize<T>(a: set<T>, b: set<T>)
    requires a <= b
    ensures |a| <= |b|
  {
    assert b == a + (b - a);
  }

  /** A step of the lifecycle machine makes nobody due in its own epoch, and a cleanup leaves at most
      half of those who were. */
  lemma DueMoves(g: Grid, p: Phases, k: nat, command: Command, p': Phases)
    requires g.duration > 0 && Next(g, p, k, command, p') && (command.Pause? ==> g.duration >= 2)
    ensures DueSet(g, p', k) <= DueSet(g, p, k)
    ensures command.Cleanup? ==> 2 * |DueSet(g, p', k)| <= |DueSet(g, p, k)|
  {
  }

  lemma StepMovesDue(cfg: Config, st: State, call: Call, k: nat)
    requires ReadyAt(cfg, st, k) && Fits(cfg.grid, k)
    requires cfg.grid.Running(call.clock) && k == cfg.grid.EpochOf(call.clock)
    requires call.command.Pause? ==> cfg.grid.duration >= 2
    ensures var g, r := cfg.grid, Step(cfg, st, call);
            var due := DueSet(g, PhasesOf(g, Table(st.entries)), k);
            var left := if r.Ok? then DueSet(g, PhasesOf(g, Table(r.value.entries)), k) else due;
            left <= due && (call.command.Cleanup? ==> 2 * |left| <= |due|)
  {
    var g, r := cfg.grid, Step(cfg, st, call);
    EpochStarts(g, call.clock);
    StepRefinesIff(cfg, st, call, k);
    if MarkLost(cfg, st, call, k) {
      LostMarkChangesNothing(cfg, st, call, k);
    } else if r.Ok? {
      DueMoves(g, PhasesOf(g, Table(st.entries)), k, call.command, PhasesOf(g, Table(r.value.entries)));
    }
  }

  /** Halving `k` often enough. */
  lemma HalvedPasses(j: nat, k: nat)
    requires 2 * j <= k
    ensures PassesNeeded(j) <= if PassesNeeded(k) == 0 then 0 else PassesNeeded(k) - 1
  {
    PassesNeededMonotone(j, k / 2);
    PassesNeededMonotone(k / 2, k);
  }

  ghost function Rest(needed: nat, done: nat): nat {
    if done >= needed then 0 else needed - done
  }

  ghost function DueAfter(cfg: Config, calls: seq<Call>, k: nat): set<Address>
    requires cfg.grid.duration > 0
  {
    DueSet(cfg.grid, PhasesAfter(cfg, calls), k)
  }

  /** One more call in epoch `k`. */
  lemma CallMovesDue(cfg: Config, calls: seq<Call>, call: Call, k: nat)
    requires cfg.grid.duration > 0 && Ordered(cfg.grid, calls + [call]) && Fits(cfg.grid, k)
    requires InEpoch(cfg.grid, [call], k) && NobodyBecomesDue(cfg.grid, [call])
    ensures DueAfter(cfg, calls + [call], k) <= DueAfter(cfg, calls, k)
    ensures call.command.Cleanup? ==> 2 * |DueAfter(cfg, calls + [call], k)| <= |DueAfter(cfg, calls, k)|
  {
    var all := calls + [call];
    assert all[..|calls|] == calls && all[|calls|] == call && call == [call][0];
    BeforeLast(cfg.grid, all, call.clock);
    ReachableTimed(cfg, calls, call.clock);
    ReachableConsistent(cfg, calls);
    EpochStarts(cfg.grid, call.clock);
    StepMovesDue(cfg, Run(cfg, calls), call, k);
  }

  lemma {:induction false} CleanupsCount(cfg: Config, calls: seq<Call>, more: seq<Call>, k: nat)
    requires cfg.grid.duration > 0 && Ordered(cfg.grid, calls + more)
    requires InEpoch(cfg.grid, more, k) && NobodyBecomesDue(cfg.grid, more) && Fits(cfg.grid, k)
    ensures PassesNeeded(|DueAfter(cfg, calls + more, k)|)
         <= Rest(PassesNeeded(|DueAfter(cfg, calls, k)|), CleanupCount(more))
    decreases |more|
  {
    if more == [] {
      assert calls + more == calls;
    } else {
      var front, call := more[..|more| - 1], more[|more| - 1];
      assert (calls + more)[..|calls + front|] == calls + front;
      assert calls + more == calls + front + [call];
      CleanupsCount(cfg, calls, front, k);
      CallMovesDue(cfg, calls + front, call, k);
      var due, left := DueAfter(cfg, calls + front, k), DueAfter(cfg, calls + more, k);
      SubsetSize(left, due);
      if call.command.Cleanup? {
        HalvedPasses(|left|, |due|);
      } else {
        PassesNeededMonotone(|left|, |due|);
      }
    }
  }

  /** With `k` operators due after some history, `floor(log2 k) + 1` cleanups in one epoch leave none
      due, whatever other calls of that epoch come in between. */
  lemma EnoughCleanupsClear(cfg: Config, calls: seq<Call>, more: seq<Call>, k: nat)
    requires cfg.grid.duration > 0 && Ordered(cfg.grid, calls + more)
    requires InEpoch(cfg.grid, more, k) && NobodyBecomesDue(cfg.grid, more) && Fits(cfg.grid, k)
    requires CleanupCount(more) >= PassesNeeded(|DueAfter(cfg, calls, k)|)
    ensures DueAfter(cfg, calls + more, k) == {}
  {
    CleanupsCount(cfg, calls, more, k);
    PassesNeededMonotone(1, |DueAfter(cfg, calls + more, k)| + 1);
  }

  // ---------- Fewer do not ----------

  ghost function Cleanups(clock: uint48, n: nat): (calls: seq<Call>)
    ensures |calls| == n
  {
    seq(n, _ => Call(ZERO_ADDRESS, clock, Cleanup))
  }

  lemma {:induction false} PassesLast(s: Entries, n: nat, t: uint48, period: uint48)
    ensures Passes(s, n + 1, t, period) == Sweep(Passes(s, n, t, period), 0, t, period)
    decreases n
  {
    if n > 0 {
      PassesLast(Sweep(s, 0, t, period), n - 1, t, period);
    }
  }

  lemma CleanupsBefore(g: Grid, calls: seq<Call>, clock: uint48, n: nat)
    requires Before(g, calls, clock)
    ensures Before(g, calls + Cleanups(clock, n), clock)
  {
  }

  lemma CleanupIsPass(cfg: Config, calls: seq<Call>, clock: uint48, now: uint48)
    requires cfg.grid.Now(clock) == Ok(now) && CleanupAccepted(cfg, calls, clock)
    ensures Run(cfg, calls + [Call(ZERO_ADDRESS, clock, Cleanup)]).entries
         == Sweep(Run(cfg, calls).entries, 0, now, cfg.grid.duration)
  {
    var all := calls + [Call(ZERO_ADDRESS, clock, Cleanup)];
    assert all[..|all| - 1] == calls;
  }

  /** Cleanups in a row are passes in a row. */
  lemma {:induction false} CleanupsArePasses(cfg: Config, calls: seq<Call>, clock: uint48, now: uint48, n: nat)
    requires cfg.grid.Running(clock) && Before(cfg.grid, calls, clock)
    requires cfg.grid.Now(clock) == Ok(now) && Fits(cfg.grid, cfg.grid.EpochOf(clock))
    ensures Run(cfg, calls + Cleanups(clock, n)).entries
         == Passes(Run(cfg, calls).entries, n, now, cfg.grid.duration)
  {
    if n == 0 {
      assert calls + Cleanups(clock, 0) == calls;
    } else {
      var front := calls + Cleanups(clock, n - 1);
      assert calls + Cleanups(clock, n) == front + [Call(ZERO_ADDRESS, clock, Cleanup)];
      CleanupsArePasses(cfg, calls, clock, now, n - 1);
      PassesLast(Run(cfg, calls).entries, n - 1, now, cfg.grid.duration);
      CleanupSafeIff(cfg, clock);
      CleanupsBefore(cfg.grid, calls, clock, n - 1);
      CleanupIsPass(cfg, front, clock, now);
    }
  }

  lemma CleanupsLeaveSomebody(cfg: Config, calls: seq<Call>, clock: uint48, now: uint48, n: nat)
    requires cfg.grid.Running(clock) && Before(cfg.grid, calls, clock)
    requires cfg.grid.Now(clock) == Ok(now) && Fits(cfg.grid, cfg.grid.EpochOf(clock))
    requires var s := Run(cfg, calls).entries;
             AllExpired(s, now, cfg.grid.duration) && n < PassesNeeded(|s|)
    ensures var left := Run(cfg, calls + Cleanups(clock, n)).entries;
            left != [] && Expired(left[0], now, cfg.grid.duration)
  {
    CleanupsArePasses(cfg, calls, clock, now, n);
    FewerPassesDoNot(Run(cfg, calls).entries, n, now, cfg.grid.duration);
  }

  ghost predicate EverybodyDue(cfg: Config, calls: seq<Call>, k: nat)
    requires cfg.grid.duration > 0
  {
    DueAfter(cfg, calls, k) == Addrs(Run(cfg, calls).entries)
  }

  /** The bound is tight: if everybody is due, fewer cleanups leave somebody registered and due. */
  lemma FewerCleanupsDoNot(cfg: Config, calls: seq<Call>, clock: uint48, n: nat)
    requires cfg.grid.Running(clock) && Before(cfg.grid, calls, clock)
    requires Fits(cfg.grid, cfg.grid.EpochOf(clock)) && EverybodyDue(cfg, calls, cfg.grid.EpochOf(clock))
    requires n < PassesNeeded(|Addrs(Run(cfg, calls).entries)|)
    ensures DueAfter(cfg, calls + Cleanups(clock, n), cfg.grid.EpochOf(clock)) != {}
  {
    EpochStarts(cfg.grid, clock);
    var now: uint48 := cfg.grid.Tick(cfg.grid.EpochOf(clock));
    AllDueIsAllExpired(cfg, calls, clock, now);
    CleanupsLeaveSomebody(cfg, calls, clock, now, n);
    CleanupsBefore(cfg.grid, calls, clock, n);
    SomebodyIsDue(cfg, calls + Cleanups(clock, n), clock, now);
  }

  lemma SomebodyIsDue(cfg: Config, calls: seq<Call>, clock: uint48, now: uint48)
    requires cfg.grid.Running(clock) && Before(cfg.grid, calls, clock) && now == cfg.grid.Tick(cfg.grid.EpochOf(clock))
    requires Run(cfg, calls).entries != [] && Expired(Run(cfg, calls).entries[0], now, cfg.grid.duration)
    ensures DueAfter(cfg, calls, cfg.grid.EpochOf(clock)) != {}
  {
    var s := Run(cfg, calls).entries;
    ReachableTimed(cfg, calls, clock);
    ReachableConsistent(cfg, calls);
    DueIsExpired(cfg.grid, s, cfg.grid.EpochOf(clock));
    assert s[0].addr in ExpiredAddrs(s, now, cfg.grid.duration);
  }

  lemma AllDueIsAllExpired(cfg: Config, calls: seq<Call>, clock: uint48, now: uint48)
    requires cfg.grid.Running(clock) && Before(cfg.grid, calls, clock) && now == cfg.grid.Tick(cfg.grid.EpochOf(clock))
    requires EverybodyDue(cfg, calls, cfg.grid.EpochOf(clock))
    ensures AllExpired(Run(cfg, calls).entries, now, cfg.grid.duration)
    ensures |Addrs(Run(cfg, calls).entries)| == |Run(cfg, calls).entries|
  {
    var s := Run(cfg, calls).entries;
    ReachableTimed(cfg, calls, clock);
    ReachableConsistent(cfg, calls);
    DueIsExpired(cfg.grid, s, cfg.grid.EpochOf(clock));
    ExpiredEverywhere(s, now, cfg.grid.duration);
    AddrsSize(s);
  }

  lemma ExpiredEverywhere(s: Entries, t: uint48, period: uint48)
    requires Distinct(s) && ExpiredAddrs(s, t, period) == Addrs(s)
    ensures AllExpired(s, t, period)
  {
    forall i | 0 <= i < |s| ensures Expired(s[i], t, period) {
      assert s[i].addr in ExpiredAddrs(s, t, period);
    }
  }

  lemma {:induction false} AddrsSize(s: Entries)
    requires Distinct(s)
    ensures |Addrs(s)| == |s|
  {
    if s != [] {
      var front, last := s[..|s| - 1], s[|s| - 1];
      assert s == front + [last];
      AddrsSize(front);
      AppendAddrs(front, last);
      assert last.addr !in Addrs(front);
    }
  }

  lemma {:induction false} CountCleanups(clock: uint48, n: nat)
    ensures CleanupCount(Cleanups(clock, n)) == n
  {
    if n > 0 {
      assert Cleanups(clock, n)[..n - 1] == Cleanups(clock, n - 1);
      CountCleanups(clock, n - 1);
    }
  }

  /** With nothing in between, the bound from the other side. */
  lemma CleanupsAloneClear(cfg: Config, calls: seq<Call>, clock: uint48, n: nat)
    requires cfg.grid.Running(clock) && Before(cfg.grid, calls, clock)
    requires Fits(cfg.grid, cfg.grid.EpochOf(clock))
    requires n >= PassesNeeded(|DueAfter(cfg, calls, cfg.grid.EpochOf(clock))|)
    ensures DueAfter(cfg, calls + Cleanups(clock, n), cfg.grid.EpochOf(clock)) == {}
  {
    CountCleanups(clock, n);
    CleanupsBefore(cfg.grid, calls, clock, n);
    EnoughCleanupsClear(cfg, calls, Cleanups(clock, n), cfg.grid.EpochOf(clock));
  }

  // ---------- One call need not clear everybody ----------

  const TEN := Grid(10, 10)

  ghost function TwoDue(cfg: Config): seq<Call> {
    [Joining(cfg, 10), Call(cfg.eigenLayer, 10, Register(2, "rpc", "")),
     Pausing(cfg, 20), Call(cfg.eigenLayer, 20, Pause(2))]
  }

  /** Two operators register in one epoch and pause in the next. In the epoch after, a cleanup leaves
      the second of them, because it was swapped into the first place. */
  lemma OneCleanupMayLeaveDue(cfg: Config)
    requires cfg.grid == TEN
    ensures Before(TEN, TwoDue(cfg), 30)
    ensures Run(cfg, TwoDue(cfg)).entries == [Entry(1, 10, 19), Entry(2, 10, 19)]
    ensures Run(cfg, TwoDue(cfg) + Cleanups(30, 1)).entries == [Entry(2, 10, 19)]
    ensures Expired(Entry(2, 10, 19), 30, 10)
  {
    var calls := TwoDue(cfg);
    TwoDueState(cfg);
    assert TEN.Now(30) == Ok(30) && TEN.EpochOf(30) == 2;
    CleanupsArePasses(cfg, calls, 30, 30, 1);
    OnePassMayLeaveExpired(1, 2);
    var s := [Entry(1, 10, 19), Entry(2, 10, 19)];
    assert Passes(s, 1, 30, 10) == Passes(Sweep(s, 0, 30, 10), 0, 30, 10) == Sweep(s, 0, 30, 10);
  }

  /** The bound at work on those two: one cleanup is too few, two are enough. */
  lemma TwoCleanupsClear(cfg: Config, calls: seq<Call>, clock: uint48)
    requires cfg.grid == TEN && clock == 30 && Before(cfg.grid, calls, clock)
    requires Run(cfg, calls).entries == [Entry(1, 10, 19), Entry(2, 10, 19)]
    ensures DueAfter(cfg, calls + Cleanups(clock, 1), 2) != {}
    ensures DueAfter(cfg, calls + Cleanups(clock, 2), 2) == {}
  {
    BothAreDue(cfg, calls, clock);
    ExactlyTwo(cfg, calls, clock);
  }

  lemma ExactlyTwo(cfg: Config, calls: seq<Call>, clock: uint48)
    requires cfg.grid.Running(clock) && Before(cfg.grid, calls, clock) && Fits(cfg.grid, cfg.grid.EpochOf(clock))
    requires EverybodyDue(cfg, calls, cfg.grid.EpochOf(clock)) && |Addrs(Run(cfg, calls).entries)| == 2
    ensures DueAfter(cfg, calls + Cleanups(clock, 1), cfg.grid.EpochOf(clock)) != {}
    ensures DueAfter(cfg, calls + Cleanups(clock, 2), cfg.grid.EpochOf(clock)) == {}
  {
    assert PassesNeeded(2) == 2;
    FewerCleanupsDoNot(cfg, calls, clock, 1);
    CleanupsAloneClear(cfg, calls, clock, 2);
  }

  lemma BothAreDue(cfg: Config, calls: seq<Call>, clock: uint48)
    requires cfg.grid == TEN && clock == 30 && Before(cfg.grid, calls, clock)
    requires Run(cfg, calls).entries == [Entry(1, 10, 19), Entry(2, 10, 19)]
    ensures cfg.grid.Running(clock) && cfg.grid.EpochOf(clock) == 2 && Fits(cfg.grid, 2)
    ensures EverybodyDue(cfg, calls, 2) && |Addrs(Run(cfg, calls).entries)| == 2
  {
    ReachableTimed(cfg, calls, clock);
    ReachableConsistent(cfg, calls);
    EpochStarts(cfg.grid, clock);
    TwoAreDue(cfg, calls, Run(cfg, calls).entries);
  }

  lemma TwoAreDue(cfg: Config, calls: seq<Call>, s: Entries)
    requires cfg.grid == TEN && s == Run(cfg, calls).entries == [Entry(1, 10, 19), Entry(2, 10, 19)]
    requires Distinct(s) && AllTimed(cfg.grid, Table(s), 2) && cfg.grid.Tick(2) == 30
    ensures EverybodyDue(cfg, calls, 2) && |Addrs(s)| == 2
  {
    DueIsExpired(cfg.grid, s, 2);
    assert ExpiredAddrs(s, 30, 10) == Addrs(s);
    AddrsSize(s);
  }

  lemma TwoDueState(cfg: Config)
    requires cfg.grid == TEN
    ensures Run(cfg, TwoDue(cfg)).entries == [Entry(1, 10, 19), Entry(2, 10, 19)]
  {
    var calls := TwoDue(cfg);
    assert calls[..3][..2] == calls[..2] && calls[..2][..1] == calls[..1] == [Joining(cfg, 10)];
    assert TEN.Now(10) == Ok(10) && TEN.Now(20) == Ok(20);
    JoinThenPause(cfg, 10, 10);
    var one, two := Entry(1, 10, 0), Entry(2, 10, 0);
    assert Run(cfg, calls[..2]).entries == [one, two] by {
      assert [one] + [two] == [one, two];
      assert RegisterIn([one], 10, 2) == Ok([one, two]);
    }
    assert Run(cfg, calls[..3]).entries == [one.(disabled := 19), two] by {
      var s := [one, two];
      assert s[0].addr == 1 && IndexOf(s, 1) == 0;
    }
    assert Run(cfg, calls).entries == [one.(disabled := 19), two.(disabled := 19)] by {
      var s := [one.(disabled := 19), two];
      assert s[1].addr == 2 && IndexOf(s, 2) == 1;
    }
  }
}
