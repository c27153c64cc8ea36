/** The operator lifecycle documented in `OperatorsRegistryV1`, without timestamps: an operator is
    active, or paused since some epoch. The pair of timestamps kept by the contract is proved to
    refine it, step by step and over every history of calls. */
module Lifecycle {
  import opened Evm
  import opened EpochGrid
  import opened PauseableSet
  import opened CleanupPass
  import opened RegistrySpec

  datatype Phase = Active | Paused(since: int)

  type Phases = map<Address, Phase>

  // ---------- Timestamps on the grid ----------

  /** An entry was enabled at the start of an epoch up to `k`; if it is paused, that happened one
      second before the start of an epoch up to `k`. */
  ghost predicate Timed(g: Grid, e: Entry, k: nat) {
    && (exists j: nat :: j <= k && e.enabled == g.Tick(j))
    && (e.disabled != 0 ==> exists j: nat :: j <= k && e.disabled + 1 == g.Tick(j))
  }

  ghost predicate AllTimed(g: Grid, table: map<Address, Entry>, k: nat) {
    forall a :: a in table ==> Timed(g, table[a], k)
  }

  ghost function PhaseOf(g: Grid, e: Entry): Phase
    requires g.duration > 0
  {
    if e.disabled == 0 then Active else Paused((e.disabled + 1 - g.start) / g.duration)
  }

  ghost function PhasesOf(g: Grid, table: map<Address, Entry>): Phases
    requires g.duration > 0
  {
    map a | a in table :: PhaseOf(g, table[a])
  }

  /** The immutable period of a pause in epoch `k` ends within 48 bits. */
  ghost predicate Fits(g: Grid, k: nat) {
    g.Tick(k) + g.duration - 1 <= MAX_UINT48
  }

  // ---------- The gates of a paused entry ----------

  lemma PausedPhase(g: Grid, e: Entry, j: nat)
    requires g.duration > 0 && 0 < e.disabled && e.disabled + 1 == g.Tick(j)
    ensures PhaseOf(g, e) == Paused(j)
  {
    calc {
      (e.disabled + 1 - g.start) / g.duration;
      (j * g.duration) / g.duration;
      { MultipleOver(j, g.duration); }
      j;
    }
  }

  lemma MultipleOver(j: nat, d: nat)
    requires d > 0
    ensures j * d / d == j
  {
    var n, q := j * d, j * d / d;
    assert q * d <= n < q * d + d;
    if q < j {
      Below(q + 1, j, d);
    } else if j < q {
      Below(j + 1, q, d);
    }
  }

  lemma Below(a: nat, b: nat, d: nat)
    requires a <= b
    ensures a * d <= b * d
    ensures a > 0 ==> a * d == (a - 1) * d + d
  {
    assert b * d == a * d + (b - a) * d;
  }

  /** An operator, strategy or vault paused in epoch `j` has `disabled + 1 == Tick(j)`. In epoch
      `k`, unregistering at `now - 1` opens exactly when `j < k`; unpausing and cleaning up at `now`
      open at the same moment unless an epoch lasts one second, when they never close. */
  lemma PausedGates(g: Grid, e: Entry, j: nat, k: nat)
    requires g.duration > 0 && 0 < e.disabled && e.disabled + 1 == g.Tick(j) && j <= k
    ensures g.Tick(k) > e.disabled
    ensures Expired(e, g.Tick(k), g.duration) <==> j < k || g.duration == 1
    ensures Expired(e, g.Tick(k) - 1, g.duration) <==> j < k
    ensures g.Tick(k) <= MAX_UINT48 ==> (Overflows(e, g.duration) <==> j == k && !Fits(g, k))
    ensures g.Tick(k) <= MAX_UINT48 ==> !ActiveAt(e.enabled, e.disabled, g.Tick(k))
  {
    var tj, tk := g.Tick(j), g.Tick(k);
    assert j < k ==> tj + g.duration <= tk by { g.TicksIncrease(j, k); }
    assert j == k ==> tj == tk;
  }

  /** The same in terms of the block's clock: all three gates open together, at the first second of
      the epoch after the pause, except that epochs of one second leave the gates of unpausing and
      cleanup open. */
  lemma GatesOpenTogether(g: Grid, e: Entry, j: nat, clock: uint48)
    requires g.duration > 0 && 0 < e.disabled && e.disabled + 1 == g.Tick(j) && g.Tick(j) <= clock
    ensures g.Now(clock).Ok?
    ensures var now := g.Now(clock).value;
            && now >= 1
            && (Gate(e, now, g.duration, AlreadyEnabled).Ok? <==> clock >= g.Tick(j + 1) || g.duration == 1)
            && (Gate(e, now - 1, g.duration, Enabled).Ok? <==> clock >= g.Tick(j + 1))
            && (Expired(e, now, g.duration) <==> clock >= g.Tick(j + 1) || g.duration == 1)
  {
    assert g.Tick(0) == g.start;
    g.TicksIncrease(0, j);
    g.NowIsEpochStart(clock);
    var k := g.EpochOf(clock);
    g.TicksIncrease(k + 1, j);
    g.TicksIncrease(k, j);
    g.TicksIncrease(j, k);
    g.TicksIncrease(j + 1, k);
    g.TicksIncrease(k + 1, j + 1);
    assert j <= k;
    PausedGates(g, e, j, k);
  }

  lemma TimedLater(g: Grid, table: map<Address, Entry>, k: nat, k': nat)
    requires AllTimed(g, table, k) && k <= k'
    ensures AllTimed(g, table, k')
  {
    forall a | a in table ensures Timed(g, table[a], k') {
      assert Timed(g, table[a], k);
    }
  }

  // ---------- The lifecycle machine ----------

  /** When unpausing and cleanup accept a phase in epoch `k`. */
  ghost predicate Due(g: Grid, phase: Phase, k: nat) {
    phase.Paused? && (phase.since < k || g.duration == 1)
  }

  ghost function DueSet(g: Grid, p: Phases, k: nat): set<Address> {
    set a | a in p && Due(g, p[a], k)
  }

  ghost predicate Allowed(g: Grid, p: Phases, k: nat, command: Command) {
    match command
    case Register(a, rpc, _) => rpc != "" && a != ZERO_ADDRESS && a !in p
    case Pause(a) => a in p && p[a].Active?
    case Unpause(a) => a in p && Due(g, p[a], k)
    case UpdateRpc(a, rpc) => rpc != "" && a in p
    case Deregister(a) => a in p && p[a].Paused? && p[a].since < k
    case Cleanup => true
  }

  ghost predicate Next(g: Grid, p: Phases, k: nat, command: Command, p': Phases) {
    match command
    case Register(a, _, _) => p' == p[a := Active]
    case Pause(a) => p' == p[a := Paused(k)]
    case Unpause(a) => p' == p[a := Active]
    case UpdateRpc(_, _) => p' == p
    case Deregister(a) => p' == p - {a}
    case Cleanup => SomeCleaned(g, p, k, p')
  }

  /** Cleanup drops at least half of those that are due and nobody else. */
  ghost predicate SomeCleaned(g: Grid, p: Phases, k: nat, p': Phases) {
    && p'.Keys <= p.Keys
    && (forall a :: a in p' ==> p'[a] == p[a])
    && (forall a :: a in p && !Due(g, p[a], k) ==> a in p')
    && 2 * |DueSet(g, p', k)| <= |DueSet(g, p, k)|
  }

  // ---------- One step refines the machine ----------

  lemma UpdatePhases(g: Grid, table: map<Address, Entry>, k: nat, e: Entry)
    requires g.duration > 0
    ensures AllTimed(g, table, k) && Timed(g, e, k) ==> AllTimed(g, table[e.addr := e], k)
    ensures PhasesOf(g, table[e.addr := e]) == PhasesOf(g, table)[e.addr := PhaseOf(g, e)]
  {
  }

  lemma EnabledNow(g: Grid, a: Address, k: nat)
    requires g.duration > 0 && g.Tick(k) <= MAX_UINT48
    ensures Timed(g, Entry(a, g.Tick(k), 0), k) && PhaseOf(g, Entry(a, g.Tick(k), 0)) == Active
  {
  }

  lemma PausedNow(g: Grid, e: Entry, k: nat)
    requires g.duration > 0 && Timed(g, e, k) && 2 <= g.Tick(k) <= MAX_UINT48
    ensures Timed(g, e.(disabled := g.Tick(k) - 1), k)
    ensures PhaseOf(g, e.(disabled := g.Tick(k) - 1)) == Paused(k)
  {
    PausedPhase(g, e.(disabled := g.Tick(k) - 1), k);
  }

  /** What the contract's guards on an entry say about its phase. */
  lemma EntryRefines(g: Grid, e: Entry, k: nat)
    requires g.duration > 0 && Timed(g, e, k) && g.Tick(k) <= MAX_UINT48
    ensures PhaseOf(g, e).Active? <==> e.disabled == 0
    ensures PhaseOf(g, e).Active? && e.enabled != 0 <==> ActiveAt(e.enabled, e.disabled, g.Tick(k))
    ensures PhaseOf(g, e).Paused? ==> 0 <= PhaseOf(g, e).since <= k
    ensures Expired(e, g.Tick(k), g.duration) <==> Due(g, PhaseOf(g, e), k)
    ensures g.Tick(k) >= 1 ==>
              (Expired(e, g.Tick(k) - 1, g.duration) <==> PhaseOf(g, e).Paused? && PhaseOf(g, e).since < k)
    ensures Overflows(e, g.duration) <==> PhaseOf(g, e) == Paused(k) && !Fits(g, k)
  {
    var i: nat :| i <= k && e.enabled == g.Tick(i);
    g.TicksIncrease(i, k);
    if e.disabled != 0 {
      var j: nat :| j <= k && e.disabled + 1 == g.Tick(j);
      PausedGates(g, e, j, k);
      PausedPhase(g, e, j);
    }
  }

  ghost function ExpiredAddrs(s: Entries, t: uint48, period: uint48): set<Address> {
    set i | 0 <= i < |s| && Expired(s[i], t, period) :: s[i].addr
  }

  lemma ExpiredAppend(s: Entries, e: Entry, t: uint48, period: uint48)
    ensures ExpiredAddrs(s + [e], t, period)
         == ExpiredAddrs(s, t, period) + if Expired(e, t, period) then {e.addr} else {}
  {
    var r := s + [e];
    assert r[|s|] == e && forall i :: 0 <= i < |s| ==> r[i] == s[i];
  }

  lemma {:induction false} CountIsCardinality(s: Entries, t: uint48, period: uint48)
    requires Distinct(s)
    ensures |ExpiredAddrs(s, t, period)| == CountExpired(s, t, period)
  {
    if s != [] {
      var n, last := |s| - 1, s[|s| - 1];
      var front := s[..n];
      assert s == front + [last];
      CountConcat(front, [last], t, period);
      CountIsCardinality(front, t, period);
      ExpiredAppend(front, last, t, period);
      assert last.addr !in ExpiredAddrs(front, t, period);
    }
  }

  lemma DueIsExpired(g: Grid, s: Entries, k: nat)
    requires g.duration > 0 && Distinct(s) && AllTimed(g, Table(s), k) && g.Tick(k) <= MAX_UINT48
    ensures DueSet(g, PhasesOf(g, Table(s)), k) == ExpiredAddrs(s, g.Tick(k), g.duration)
  {
    var p := PhasesOf(g, Table(s));
    forall a | a in Addrs(s)
      ensures a in DueSet(g, p, k) <==> a in ExpiredAddrs(s, g.Tick(k), g.duration)
    {
      var i := IndexOf(s, a);
      assert Timed(g, Table(s)[a], k);
      EntryRefines(g, s[i], k);
      assert forall j :: 0 <= j < |s| && s[j].addr == a ==> j == i;
    }
  }

  lemma CleanupRefines(g: Grid, s: Entries, k: nat)
    requires g.duration > 0 && Distinct(s) && AllTimed(g, Table(s), k) && g.Tick(k) <= MAX_UINT48
    ensures var left := Sweep(s, 0, g.Tick(k), g.duration);
            && AllTimed(g, Table(left), k)
            && SomeCleaned(g, PhasesOf(g, Table(s)), k, PhasesOf(g, Table(left)))
  {
    var left := Sweep(s, 0, g.Tick(k), g.duration);
    SweepTable(s, 0, g.Tick(k), g.duration);
    assert AllTimed(g, Table(left), k);
    DueIsExpired(g, s, k);
    DueIsExpired(g, left, k);
    CountIsCardinality(s, g.Tick(k), g.duration);
    CountIsCardinality(left, g.Tick(k), g.duration);
    assert s[0..] == s;
    SweepHalves(s, 0, g.Tick(k), g.duration);
    forall a | a in Table(s) && !Due(g, PhaseOf(g, Table(s)[a]), k) ensures a in Table(left) {
      EntryRefines(g, Table(s)[a], k);
    }
  }

  // ---------- Calls ----------

  /** What a call other than cleanup does to the table of entries in epoch `k`: whether it is
      accepted, and the phases afterwards. */
  ghost predicate TableRefines(g: Grid, table: map<Address, Entry>, k: nat, command: Command, ok: bool,
                               next: map<Address, Entry>)
    requires g.duration > 0
  {
    var p := PhasesOf(g, table);
    && (ok <==> Allowed(g, p, k, command))
    && (ok ==> AllTimed(g, next, k) && Next(g, p, k, command, PhasesOf(g, next)))
  }

  ghost predicate Refines(g: Grid, s: Entries, k: nat, command: Command, r: Result<Entries>)
    requires g.duration > 0
  {
    TableRefines(g, Table(s), k, command, r.Ok?, if r.Ok? then Table(r.value) else Table(s))
  }

  ghost predicate TableReady(g: Grid, table: map<Address, Entry>, k: nat) {
    && g.duration > 0 && AllTimed(g, table, k) && g.Tick(k) <= MAX_UINT48
    && forall a :: a in table ==> table[a].addr == a
  }

  lemma RegisterTable(g: Grid, table: map<Address, Entry>, k: nat, a: Address, rpc: string, extra: string)
    requires TableReady(g, table, k) && rpc != "" && a != ZERO_ADDRESS
    ensures TableRefines(g, table, k, Register(a, rpc, extra), a !in table, table[a := Entry(a, g.Tick(k), 0)])
  {
    EnabledNow(g, a, k);
    UpdatePhases(g, table, k, Entry(a, g.Tick(k), 0));
  }

  lemma PauseTable(g: Grid, table: map<Address, Entry>, k: nat, t: uint48, a: Address)
    requires TableReady(g, table, k) && 0 < t && t + 1 == g.Tick(k) && a in table
    ensures TableRefines(g, table, k, Pause(a), table[a].disabled == 0, table[a := table[a].(disabled := t)])
  {
    assert Timed(g, table[a], k);
    EntryRefines(g, table[a], k);
    PausedNow(g, table[a], k);
    UpdatePhases(g, table, k, table[a].(disabled := t));
  }

  lemma UnpauseTable(g: Grid, table: map<Address, Entry>, k: nat, a: Address)
    requires TableReady(g, table, k) && a in table
    ensures TableRefines(g, table, k, Unpause(a), Expired(table[a], g.Tick(k), g.duration),
                         table[a := Entry(a, g.Tick(k), 0)])
  {
    assert Timed(g, table[a], k);
    EntryRefines(g, table[a], k);
    EnabledNow(g, a, k);
    UpdatePhases(g, table, k, Entry(a, g.Tick(k), 0));
  }

  lemma DeregisterTable(g: Grid, table: map<Address, Entry>, k: nat, a: Address)
    requires TableReady(g, table, k) && g.Tick(k) >= 1 && a in table
    ensures TableRefines(g, table, k, Deregister(a), Expired(table[a], g.Tick(k) - 1, g.duration), table - {a})
  {
    assert Timed(g, table[a], k);
    EntryRefines(g, table[a], k);
    assert PhasesOf(g, table - {a}) == PhasesOf(g, table) - {a};
  }

  lemma FromTable(g: Grid, s: Entries, k: nat, command: Command, r: Result<Entries>, ok: bool, next: map<Address, Entry>)
    requires g.duration > 0
    ensures TableRefines(g, Table(s), k, command, ok, next) && (r.Ok? <==> ok) && (r.Ok? ==> Table(r.value) == next)
        ==> Refines(g, s, k, command, r)
  {
  }

  lemma RegisterRefines(g: Grid, s: Entries, k: nat, a: Address, rpc: string, extra: string)
    requires Distinct(s) && TableReady(g, Table(s), k) && rpc != "" && a != ZERO_ADDRESS
    ensures Refines(g, s, k, Register(a, rpc, extra), RegisterIn(s, g.Tick(k), a))
  {
    RegisterMeaning(s, g.Tick(k), a);
    RegisterTable(g, Table(s), k, a, rpc, extra);
  }

  lemma PauseRefines(g: Grid, s: Entries, k: nat, t: uint48, a: Address)
    requires Distinct(s) && TableReady(g, Table(s), k) && 0 < t && t + 1 == g.Tick(k)
    ensures Refines(g, s, k, Pause(a), PauseIn(s, t, a))
  {
    PauseMeaning(s, t, a);
    if a in Table(s) {
      PauseTable(g, Table(s), k, t, a);
      FromTable(g, s, k, Pause(a), PauseIn(s, t, a), Table(s)[a].disabled == 0, Table(s)[a := Table(s)[a].(disabled := t)]);
    }
  }

  lemma UnpauseRefines(g: Grid, s: Entries, k: nat, a: Address)
    requires Distinct(s) && TableReady(g, Table(s), k)
    ensures Refines(g, s, k, Unpause(a), UnpauseIn(s, g.Tick(k), g.duration, a))
  {
    UnpauseMeaning(s, g.Tick(k), g.duration, a);
    if a in Table(s) {
      UnpauseTable(g, Table(s), k, a);
    }
  }

  lemma DeregisterRefines(g: Grid, s: Entries, k: nat, a: Address)
    requires Distinct(s) && TableReady(g, Table(s), k) && g.Tick(k) >= 1
    ensures Refines(g, s, k, Deregister(a), UnregisterIn(s, g.Tick(k) - 1, g.duration, a))
  {
    UnregisterMeaning(s, g.Tick(k) - 1, g.duration, a);
    if a in Table(s) {
      DeregisterTable(g, Table(s), k, a);
    }
  }

  /** A cleanup in epoch `k` may panic: the period of a pause in this epoch ends beyond 48 bits, and
      somebody was paused in this epoch. */
  ghost predicate MayPanic(g: Grid, p: Phases, k: nat) {
    !Fits(g, k) && exists a :: a in p && p[a] == Paused(k)
  }

  lemma CleanupFits(g: Grid, s: Entries, k: nat)
    requires g.duration > 0 && Distinct(s) && AllTimed(g, Table(s), k) && g.Tick(k) <= MAX_UINT48
    requires !MayPanic(g, PhasesOf(g, Table(s)), k)
    ensures !SweepOverflows(s, 0, g.Tick(k), g.duration)
  {
    var p := PhasesOf(g, Table(s));
    forall i | 0 <= i < |s| ensures !Overflows(s[i], g.duration) {
      TableAt(s, i);
      assert Timed(g, s[i], k);
      EntryRefines(g, s[i], k);
      assert p[s[i].addr] == PhaseOf(g, s[i]);
    }
    SweepFits(s, 0, g.Tick(k), g.duration);
  }

  ghost predicate Authorised(cfg: Config, sender: Address, command: Command) {
    command.Cleanup? || cfg.IsMiddleware(sender)
  }

  /** A call in epoch `k` with result `r` is a step of the lifecycle machine: accepted exactly when
      it comes from a middleware and the machine allows it, unless it is a cleanup that panics, and
      then the phases move as the machine says. */
  ghost predicate Simulates(cfg: Config, st: State, sender: Address, k: nat, command: Command, r: Result<State>)
    requires cfg.grid.duration > 0
  {
    var g, p := cfg.grid, PhasesOf(cfg.grid, Table(st.entries));
    && (r.Ok? ==> Authorised(cfg, sender, command) && Allowed(g, p, k, command))
    && (Authorised(cfg, sender, command) && Allowed(g, p, k, command) ==>
          r.Ok? || (command.Cleanup? && MayPanic(g, p, k)))
    && (r.Ok? ==>
          && AllTimed(g, Table(r.value.entries), k)
          && Next(g, p, k, command, PhasesOf(g, Table(r.value.entries))))
  }

  ghost predicate ReadyAt(cfg: Config, st: State, k: nat) {
    && cfg.grid.duration > 0 && Consistent(st) && AllTimed(cfg.grid, Table(st.entries), k)
    && cfg.grid.Tick(k) <= MAX_UINT48
  }

  lemma PauseOutcome(cfg: Config, st: State, sender: Address, now: uint48, a: Address)
    requires now >= 1
    ensures var r, entries := PauseCall(cfg, st, sender, Ok(now), a), PauseIn(st.entries, now - 1, a);
            && (r.Ok? <==> cfg.IsMiddleware(sender) && entries.Ok?)
            && (r.Ok? ==> r.value.entries == entries.value)
  {
  }

  lemma DeregisterOutcome(cfg: Config, st: State, sender: Address, now: uint48, a: Address)
    requires now >= 1
    ensures var r := DeregisterCall(cfg, st, sender, Ok(now), a);
            var entries := UnregisterIn(st.entries, now - 1, cfg.grid.duration, a);
            && (r.Ok? <==> cfg.IsMiddleware(sender) && entries.Ok?)
            && (r.Ok? ==> r.value.entries == entries.value)
  {
  }

  /** Apart from the sender check, a call goes the way its operation on the set goes. */
  lemma FromEntries(cfg: Config, st: State, sender: Address, k: nat, command: Command, r: Result<State>, s: Result<Entries>)
    requires cfg.grid.duration > 0 && !command.Cleanup?
    ensures Refines(cfg.grid, st.entries, k, command, s)
         && (r.Ok? <==> cfg.IsMiddleware(sender) && s.Ok?)
         && (r.Ok? ==> r.value.entries == s.value)
         ==> Simulates(cfg, st, sender, k, command, r)
  {
  }

  lemma RegisterSimulates(cfg: Config, st: State, sender: Address, now: uint48, k: nat, a: Address, rpc: string, extra: string)
    requires ReadyAt(cfg, st, k) && now == cfg.grid.Tick(k)
    ensures Simulates(cfg, st, sender, k, Register(a, rpc, extra), RegisterCall(cfg, st, sender, Ok(now), a, rpc, extra))
  {
    if rpc != "" && a != ZERO_ADDRESS {
      RegisterRefines(cfg.grid, st.entries, k, a, rpc, extra);
      FromEntries(cfg, st, sender, k, Register(a, rpc, extra), RegisterCall(cfg, st, sender, Ok(now), a, rpc, extra),
                  RegisterIn(st.entries, now, a));
    }
  }

  lemma PauseSimulates(cfg: Config, st: State, sender: Address, now: uint48, k: nat, a: Address)
    requires ReadyAt(cfg, st, k) && now == cfg.grid.Tick(k) && now >= 2
    ensures Simulates(cfg, st, sender, k, Pause(a), PauseCall(cfg, st, sender, Ok(now), a))
  {
    PauseOutcome(cfg, st, sender, now, a);
    PauseRefines(cfg.grid, st.entries, k, now - 1, a);
    FromEntries(cfg, st, sender, k, Pause(a), PauseCall(cfg, st, sender, Ok(now), a), PauseIn(st.entries, now - 1, a));
  }

  lemma UnpauseSimulates(cfg: Config, st: State, sender: Address, now: uint48, k: nat, a: Address)
    requires ReadyAt(cfg, st, k) && now == cfg.grid.Tick(k)
    ensures Simulates(cfg, st, sender, k, Unpause(a), UnpauseCall(cfg, st, sender, Ok(now), a))
  {
    UnpauseRefines(cfg.grid, st.entries, k, a);
    FromEntries(cfg, st, sender, k, Unpause(a), UnpauseCall(cfg, st, sender, Ok(now), a),
                UnpauseIn(st.entries, now, cfg.grid.duration, a));
  }

  lemma DeregisterSimulates(cfg: Config, st: State, sender: Address, now: uint48, k: nat, a: Address)
    requires ReadyAt(cfg, st, k) && now == cfg.grid.Tick(k)
    ensures Simulates(cfg, st, sender, k, Deregister(a), DeregisterCall(cfg, st, sender, Ok(now), a))
  {
    if now == 0 {
      NobodyDueAtZero(cfg.grid, Table(st.entries), k, a);
    } else {
      DeregisterOutcome(cfg, st, sender, now, a);
      DeregisterRefines(cfg.grid, st.entries, k, a);
      FromEntries(cfg, st, sender, k, Deregister(a), DeregisterCall(cfg, st, sender, Ok(now), a),
                  UnregisterIn(st.entries, now - 1, cfg.grid.duration, a));
    }
  }

  /** An epoch that starts at second 0 is the first, so nobody was paused before it. */
  lemma NobodyDueAtZero(g: Grid, table: map<Address, Entry>, k: nat, a: Address)
    requires g.duration > 0 && AllTimed(g, table, k) && g.Tick(k) == 0
    ensures !Allowed(g, PhasesOf(g, table), k, Deregister(a))
  {
    assert g.Tick(0) == g.start;
    g.TicksIncrease(0, k);
    if a in table {
      assert Timed(g, table[a], k);
      EntryRefines(g, table[a], k);
    }
  }

  lemma CleanupSimulates(cfg: Config, st: State, sender: Address, k: nat)
    requires ReadyAt(cfg, st, k)
    ensures Simulates(cfg, st, sender, k, Cleanup, CleanupCall(cfg, st, Ok(cfg.grid.Tick(k))))
  {
    var g, s := cfg.grid, st.entries;
    CleanupRefines(g, s, k);
    if s == [] {
      assert Sweep(s, 0, g.Tick(k), g.duration) == s;
    } else if !MayPanic(g, PhasesOf(g, Table(s)), k) {
      CleanupFits(g, s, k);
    }
  }

  /** The lifecycle allows this pause, but the epoch starts at second 0, where the contract cannot
      compute the mark and reverts, or at second 1, where the mark is 0 and reads as not paused. */
  ghost predicate MarkLost(cfg: Config, st: State, call: Call, k: nat)
    requires cfg.grid.duration > 0
  {
    && call.command.Pause? && cfg.grid.Tick(k) < 2
    && Authorised(cfg, call.sender, call.command)
    && Allowed(cfg.grid, PhasesOf(cfg.grid, Table(st.entries)), k, call.command)
  }

  lemma PauseAtZero(cfg: Config, st: State, sender: Address, a: Address)
    ensures PauseCall(cfg, st, sender, Ok(0), a).Revert?
  {
  }

  lemma PauseAtOne(cfg: Config, st: State, sender: Address, a: Address)
    requires cfg.IsMiddleware(sender) && Distinct(st.entries)
    requires a in Table(st.entries) && Table(st.entries)[a].disabled == 0
    ensures var r := PauseCall(cfg, st, sender, Ok(1), a);
            r.Ok? && Table(r.value.entries) == Table(st.entries)
  {
    PauseOutcome(cfg, st, sender, 1, a);
    PauseMeaning(st.entries, 0, a);
    assert Table(st.entries)[a := Table(st.entries)[a].(disabled := 0)] == Table(st.entries);
  }

  /** A pause whose mark is lost leaves every entry as it was. */
  lemma LostMarkChangesNothing(cfg: Config, st: State, call: Call, k: nat)
    requires ReadyAt(cfg, st, k) && cfg.grid.Now(call.clock) == Ok(cfg.grid.Tick(k)) && MarkLost(cfg, st, call, k)
    ensures var r := Step(cfg, st, call);
            && (r.Ok? <==> cfg.grid.Tick(k) == 1)
            && (r.Ok? ==> Table(r.value.entries) == Table(st.entries))
  {
    var a, table := call.command.signer, Table(st.entries);
    assert Timed(cfg.grid, table[a], k);
    EntryRefines(cfg.grid, table[a], k);
    if cfg.grid.Tick(k) == 0 {
      PauseAtZero(cfg, st, call.sender, a);
    } else {
      PauseAtOne(cfg, st, call.sender, a);
    }
  }

  /** Every call of the contract is a step of the lifecycle machine in the epoch of its block,
      exactly unless it is a pause whose mark is lost. */
  lemma StepRefinesIff(cfg: Config, st: State, call: Call, k: nat)
    requires cfg.grid.duration > 0 && Consistent(st) && AllTimed(cfg.grid, Table(st.entries), k)
    requires cfg.grid.Running(call.clock) && k == cfg.grid.EpochOf(call.clock)
    ensures Simulates(cfg, st, call.sender, k, call.command, Step(cfg, st, call)) <==> !MarkLost(cfg, st, call, k)
  {
    EpochStarts(cfg.grid, call.clock);
    assert ReadyAt(cfg, st, k);
    if MarkLost(cfg, st, call, k) {
      LostMarkChangesNothing(cfg, st, call, k);
    } else {
      OtherStepsSimulate(cfg, st, call, k, cfg.grid.Tick(k));
    }
  }

  lemma OtherStepsSimulate(cfg: Config, st: State, call: Call, k: nat, now: uint48)
    requires ReadyAt(cfg, st, k) && now == cfg.grid.Tick(k) && cfg.grid.Now(call.clock) == Ok(now)
    requires !MarkLost(cfg, st, call, k)
    ensures Simulates(cfg, st, call.sender, k, call.command, Step(cfg, st, call))
  {
    match call.command
    case Register(a, rpc, extra) => RegisterSimulates(cfg, st, call.sender, now, k, a, rpc, extra);
    case Pause(a) =>
      if now >= 2 {
        PauseSimulates(cfg, st, call.sender, now, k, a);
      } else {
        DeniedPauseReverts(cfg, st, call.sender, now, k, a);
      }
    case Unpause(a) => UnpauseSimulates(cfg, st, call.sender, now, k, a);
    case UpdateRpc(_, _) =>
    case Deregister(a) => DeregisterSimulates(cfg, st, call.sender, now, k, a);
    case Cleanup => CleanupSimulates(cfg, st, call.sender, k);
  }

  lemma DeniedPauseReverts(cfg: Config, st: State, sender: Address, now: uint48, k: nat, a: Address)
    requires ReadyAt(cfg, st, k) && now == cfg.grid.Tick(k)
    requires !(Authorised(cfg, sender, Pause(a)) && Allowed(cfg.grid, PhasesOf(cfg.grid, Table(st.entries)), k, Pause(a)))
    ensures PauseCall(cfg, st, sender, Ok(now), a).Revert?
  {
    if a in Table(st.entries) {
      assert Timed(cfg.grid, Table(st.entries)[a], k);
      EntryRefines(cfg.grid, Table(st.entries)[a], k);
    }
    if now >= 1 {
      PauseMeaning(st.entries, now - 1, a);
      PauseOutcome(cfg, st, sender, now, a);
    }
  }

  /** Timestamps stay on the grid, whether or not marks are lost. */
  lemma StepKeepsTimed(cfg: Config, st: State, call: Call, k: nat)
    requires cfg.grid.duration > 0 && Consistent(st) && AllTimed(cfg.grid, Table(st.entries), k)
    requires cfg.grid.Running(call.clock) && k == cfg.grid.EpochOf(call.clock)
    ensures Step(cfg, st, call).Ok? ==> AllTimed(cfg.grid, Table(Step(cfg, st, call).value.entries), k)
  {
    EpochStarts(cfg.grid, call.clock);
    StepRefinesIff(cfg, st, call, k);
    if MarkLost(cfg, st, call, k) {
      LostMarkChangesNothing(cfg, st, call, k);
    }
  }

  lemma EpochStarts(g: Grid, clock: uint48)
    requires g.Running(clock)
    ensures g.start <= g.Tick(g.EpochOf(clock)) <= MAX_UINT48
    ensures g.Now(clock) == Ok(g.Tick(g.EpochOf(clock)))
  {
    g.NowIsEpochStart(clock);
    assert g.Tick(0) == g.start;
    g.TicksIncrease(0, g.EpochOf(clock));
  }

  // ---------- Whole histories ----------

  /** Block timestamps never decrease, and none precedes the deployment. */
  ghost predicate Ordered(g: Grid, calls: seq<Call>) {
    && (forall i :: 0 <= i < |calls| ==> g.start <= calls[i].clock)
    && (forall i, j :: 0 <= i < j < |calls| ==> calls[i].clock <= calls[j].clock)
  }

  /** All calls lie in the past of `clock`. */
  ghost predicate Before(g: Grid, calls: seq<Call>, clock: uint48) {
    Ordered(g, calls) && g.start <= clock && forall i :: 0 <= i < |calls| ==> calls[i].clock <= clock
  }

  lemma BeforeLast(g: Grid, calls: seq<Call>, clock: uint48)
    requires Before(g, calls, clock) && calls != []
    ensures Before(g, calls[..|calls| - 1], calls[|calls| - 1].clock)
    ensures calls[|calls| - 1].clock <= clock
  {
  }

  /** After any history, every entry's timestamps are grid points of epochs that have begun. */
  lemma {:induction false} ReachableTimed(cfg: Config, calls: seq<Call>, clock: uint48)
    requires cfg.grid.duration > 0 && Before(cfg.grid, calls, clock)
    ensures AllTimed(cfg.grid, Table(Run(cfg, calls).entries), cfg.grid.EpochOf(clock))
    decreases |calls|
  {
    if calls != [] {
      var g, n := cfg.grid, |calls| - 1;
      var prefix, call := calls[..n], calls[n];
      var before := Run(cfg, prefix);
      BeforeLast(g, calls, clock);
      ReachableTimed(cfg, prefix, call.clock);
      ReachableConsistent(cfg, prefix);
      StepKeepsTimed(cfg, before, call, g.EpochOf(call.clock));
      g.NowMonotoneAndIdempotent(call.clock, clock);
      TimedLater(g, Table(Run(cfg, calls).entries), g.EpochOf(call.clock), g.EpochOf(clock));
    }
  }

  datatype Event = Never | Registered | Unpaused | PausedBy | Deregistered | CleanedUp

  /** What an accepted call means for `a`; being swept away by a cleanup counts. */
  ghost function EventFor(command: Command, a: Address, gone: bool): Event {
    match command
    case Register(b, _, _) => if a == b then Registered else Never
    case Pause(b) => if a == b then PausedBy else Never
    case Unpause(b) => if a == b then Unpaused else Never
    case UpdateRpc(_, _) => Never
    case Deregister(b) => if a == b then Deregistered else Never
    case Cleanup => if gone then CleanedUp else Never
  }

  /** The last accepted call that concerned `a`. */
  ghost function LastEvent(cfg: Config, calls: seq<Call>, a: Address): Event {
    if calls == [] then Never
    else
      var prefix, call := calls[..|calls| - 1], calls[|calls| - 1];
      var before, after := Addrs(Run(cfg, prefix).entries), Addrs(Run(cfg, calls).entries);
      var event := EventFor(call.command, a, a in before && a !in after);
      if Step(cfg, Run(cfg, prefix), call).Ok? && event != Never then event
      else LastEvent(cfg, prefix, a)
  }

  ghost predicate ActiveIn(p: Phases, a: Address) {
    a in p && p[a].Active?
  }

  lemma ActivityMoves(g: Grid, p: Phases, k: nat, command: Command, p': Phases, a: Address)
    requires Next(g, p, k, command, p')
    ensures var event := EventFor(command, a, a in p && a !in p');
            ActiveIn(p', a) <==> if event == Never then ActiveIn(p, a) else event in {Registered, Unpaused}
  {
  }

  ghost function PhasesAfter(cfg: Config, calls: seq<Call>): Phases
    requires cfg.grid.duration > 0
  {
    PhasesOf(cfg.grid, Table(Run(cfg, calls).entries))
  }

  lemma {:induction false} ActivePhaseIffLastEvent(cfg: Config, calls: seq<Call>, clock: uint48, a: Address)
    requires cfg.grid.duration > 0 && cfg.grid.start >= 2 && Before(cfg.grid, calls, clock)
    ensures ActiveIn(PhasesAfter(cfg, calls), a) <==> LastEvent(cfg, calls, a) in {Registered, Unpaused}
    decreases |calls|
  {
    if calls != [] {
      var g, n := cfg.grid, |calls| - 1;
      var prefix, call := calls[..n], calls[n];
      BeforeLast(g, calls, clock);
      ActivePhaseIffLastEvent(cfg, prefix, call.clock, a);
      if Step(cfg, Run(cfg, prefix), call).Ok? {
        ReachableTimed(cfg, prefix, call.clock);
        ReachableConsistent(cfg, prefix);
        EpochStarts(g, call.clock);
        StepRefinesIff(cfg, Run(cfg, prefix), call, g.EpochOf(call.clock));
        ActivityMoves(g, PhasesAfter(cfg, prefix), g.EpochOf(call.clock), call.command, PhasesAfter(cfg, calls), a);
      }
    }
  }

  /** What `isActiveOperator` answers after a history. */
  ghost predicate ActiveNow(cfg: Config, calls: seq<Call>, clock: uint48, a: Address) {
    cfg.grid.Now(clock).Ok? && IsActive(Run(cfg, calls), a, cfg.grid.Now(clock).value)
  }

  /** An operator counts as active exactly when the last accepted call about it registered or
      unpaused it. */
  ghost predicate LastEventDecides(cfg: Config, calls: seq<Call>, clock: uint48, a: Address) {
    ActiveNow(cfg, calls, clock, a) <==> LastEvent(cfg, calls, a) in {Registered, Unpaused}
  }

  lemma LastEventDecidesFromTwo(cfg: Config, calls: seq<Call>, clock: uint48, a: Address)
    requires cfg.grid.duration > 0 && cfg.grid.start >= 2 && Before(cfg.grid, calls, clock)
    ensures LastEventDecides(cfg, calls, clock, a)
  {
    var g, table := cfg.grid, Table(Run(cfg, calls).entries);
    EpochStarts(g, clock);
    ReachableTimed(cfg, calls, clock);
    ActivePhaseIffLastEvent(cfg, calls, clock, a);
    if a in table {
      assert Timed(g, table[a], g.EpochOf(clock));
      EnabledFromStart(g, table[a], g.EpochOf(clock));
      EntryRefines(g, table[a], g.EpochOf(clock));
    }
  }

  lemma EnabledFromStart(g: Grid, e: Entry, k: nat)
    requires g.duration > 0 && Timed(g, e, k)
    ensures e.enabled >= g.start
  {
    var j: nat :| j <= k && e.enabled == g.Tick(j);
    assert g.Tick(0) == g.start;
    g.TicksIncrease(0, j);
  }

  /** Over every history, an operator counts as active now exactly when the last accepted call about
      it registered or unpaused it; so those, and a pause, take effect in the epoch of the call, even
      a pause in the epoch of registration. This holds exactly when the registry starts at second 2 or
      later: from second 0 a registration, and from second 1 a pause, can go unnoticed. */
  lemma ActiveIffLastEvent(cfg: Config)
    requires cfg.grid.duration > 0
    ensures (forall calls: seq<Call>, clock: uint48, a: Address ::
               Before(cfg.grid, calls, clock) ==> LastEventDecides(cfg, calls, clock, a))
       <==> cfg.grid.start >= 2
  {
    if cfg.grid.start >= 2 {
      forall calls: seq<Call>, clock: uint48, a: Address | Before(cfg.grid, calls, clock)
        ensures LastEventDecides(cfg, calls, clock, a)
      {
        LastEventDecidesFromTwo(cfg, calls, clock, a);
      }
    } else {
      var calls := EarlyHistory(cfg);
      assert !LastEventDecides(cfg, calls, cfg.grid.start, 1);
    }
  }

  ghost function Joining(cfg: Config, clock: uint48): Call {
    Call(cfg.eigenLayer, clock, Register(1, "rpc", ""))
  }

  ghost function Pausing(cfg: Config, clock: uint48): Call {
    Call(cfg.eigenLayer, clock, Pause(1))
  }

  /** Operator 1 registers, and then pauses, in an epoch that starts at `now`. */
  lemma JoinThenPause(cfg: Config, clock: uint48, now: uint48)
    requires cfg.grid.Now(clock) == Ok(now)
    ensures var join, pause := Joining(cfg, clock), Pausing(cfg, clock);
            && Step(cfg, EMPTY, join).Ok?
            && Run(cfg, [join]).entries == [Entry(1, now, 0)]
            && (now >= 1 ==> Step(cfg, Run(cfg, [join]), pause).Ok?)
            && (now >= 1 ==> Run(cfg, [join, pause]).entries == [Entry(1, now, now - 1)])
  {
    var join, pause := Joining(cfg, clock), Pausing(cfg, clock);
    var joined := [Entry(1, now, 0)];
    assert [join][..0] == [] && [join, pause][..1] == [join];
    assert RegisterIn([], now, 1) == Ok(joined) by {
      assert [] + joined == joined;
    }
    assert Run(cfg, [join]).entries == joined;
    if now >= 1 {
      var paused := [Entry(1, now, now - 1)];
      assert PauseIn(joined, now - 1, 1) == Ok(paused) by {
        assert joined[0].addr == 1 && IndexOf(joined, 1) == 0;
        assert joined[0 := Entry(1, now, now - 1)] == paused;
      }
    }
  }

  /** Started at second 0, an operator that registers at once is not active; started at second 1, one
      that also pauses at once still is. */
  lemma EarlyHistory(cfg: Config) returns (calls: seq<Call>)
    requires cfg.grid.duration > 0 && cfg.grid.start < 2
    ensures Before(cfg.grid, calls, cfg.grid.start)
    ensures calls == if cfg.grid.start == 0 then [Joining(cfg, 0)] else [Joining(cfg, 1), Pausing(cfg, 1)]
    ensures !LastEventDecides(cfg, calls, cfg.grid.start, 1)
  {
    var g, start := cfg.grid, cfg.grid.start;
    FirstEpoch(g);
    JoinThenPause(cfg, start, start);
    var join, pause := Joining(cfg, start), Pausing(cfg, start);
    calls := if start == 0 then [join] else [join, pause];
    var s := Run(cfg, calls).entries;
    assert s == [Entry(1, start, 0)];
    assert s[0].addr == 1 && IndexOf(s, 1) == 0;
    assert ActiveNow(cfg, calls, start, 1) <==> start == 1;
    assert calls[..|calls| - 1] == if start == 0 then [] else [join];
    assert LastEvent(cfg, calls, 1) == if start == 0 then Registered else PausedBy;
  }

  lemma FirstEpoch(g: Grid)
    requires g.duration > 0
    ensures g.EpochOf(g.start) == 0 && g.Now(g.start) == Ok(g.start)
  {
    g.NowIsEpochStart(g.start);
    assert g.Tick(0) == g.start;
  }

  /** The last call of a history is a step of the lifecycle machine. */
  ghost predicate LastStepSimulates(cfg: Config, calls: seq<Call>, call: Call)
    requires cfg.grid.Running(call.clock)
  {
    Simulates(cfg, Run(cfg, calls), call.sender, cfg.grid.EpochOf(call.clock), call.command,
              Step(cfg, Run(cfg, calls), call))
  }

  lemma LastStepSimulatesIff(cfg: Config, calls: seq<Call>, call: Call)
    requires cfg.grid.duration > 0 && Before(cfg.grid, calls, call.clock)
    ensures LastStepSimulates(cfg, calls, call) <==>
            !MarkLost(cfg, Run(cfg, calls), call, cfg.grid.EpochOf(call.clock))
    ensures cfg.grid.start >= 2 ==> LastStepSimulates(cfg, calls, call)
  {
    ReachableTimed(cfg, calls, call.clock);
    ReachableConsistent(cfg, calls);
    EpochStarts(cfg.grid, call.clock);
    StepRefinesIff(cfg, Run(cfg, calls), call, cfg.grid.EpochOf(call.clock));
  }

  /** Operator 1 registers in the first epoch, and its pause in the same epoch loses its mark. */
  lemma EarlyPauseLosesMark(cfg: Config)
    requires cfg.grid.duration > 0 && cfg.grid.start < 2
    ensures MarkLost(cfg, Run(cfg, [Joining(cfg, cfg.grid.start)]), Pausing(cfg, cfg.grid.start), 0)
  {
    var g, join := cfg.grid, Joining(cfg, cfg.grid.start);
    FirstEpoch(g);
    JoinThenPause(cfg, g.start, g.start);
    var s := Run(cfg, [join]).entries;
    assert s[0].addr == 1 && IndexOf(s, 1) == 0;
    assert g.Tick(0) == g.start;
  }

  /** The contract refines the lifecycle machine over all histories exactly when the registry starts
      at second 2 or later. */
  lemma HistoriesRefineIff(cfg: Config)
    requires cfg.grid.duration > 0
    ensures (forall calls: seq<Call>, call: Call ::
               Before(cfg.grid, calls, call.clock) ==> LastStepSimulates(cfg, calls, call))
       <==> cfg.grid.start >= 2
  {
    if cfg.grid.start >= 2 {
      forall calls: seq<Call>, call: Call | Before(cfg.grid, calls, call.clock)
        ensures LastStepSimulates(cfg, calls, call)
      {
        LastStepSimulatesIff(cfg, calls, call);
      }
    } else {
      FirstEpoch(cfg.grid);
      EarlyPauseLosesMark(cfg);
      LastStepSimulatesIff(cfg, [Joining(cfg, cfg.grid.start)], Pausing(cfg, cfg.grid.start));
    }
  }

  /** Single calls: an accepted registration takes effect at once exactly when the epoch does not
      start at second 0, where the enabling time would be zero. */
  lemma RegisterTakesEffectIff(st: State, now: uint48, a: Address)
    requires Distinct(st.entries) && RegisterIn(st.entries, now, a).Ok?
    ensures IsActive(st.(entries := RegisterIn(st.entries, now, a).value), a, now) <==> now != 0
  {
    RegisterMeaning(st.entries, now, a);
  }

  /** An accepted pause makes an active operator inactive exactly when the epoch did not start at
      second 1, where the mark of a pause would be zero. */
  lemma PauseTakesEffectIff(st: State, now: uint48, a: Address)
    requires Distinct(st.entries) && now >= 1 && IsActive(st, a, now)
    requires PauseIn(st.entries, now - 1, a).Ok?
    ensures !IsActive(st.(entries := PauseIn(st.entries, now - 1, a).value), a, now) <==> now != 1
  {
    PauseMeaning(st.entries, now - 1, a);
  }
}
