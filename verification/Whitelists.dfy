/** Whole histories of a whitelist: the accepted changes made by its owner, and what they say about
    each member. The strategy and the vault whitelist are both kept this way. */
module Whitelists {
  import opened Evm
  import opened EpochGrid
  import opened PauseableSet
  import opened Stakes
  import Lifecycle

  datatype Op = Add | Pause | Unpause | Remove

  datatype Change = Change(clock: uint48, op: Op, member: Address)

  /** Pausing and removing use the second before the epoch start. */
  ghost function ChangeAt(s: Entries, op: Op, a: Address, now: uint48, period: uint48): Result<Entries> {
    match op
    case Add => RegisterIn(s, now, a)
    case Pause =>
      var t :- CheckedSub48(now, 1);
      PauseIn(s, t, a)
    case Unpause => UnpauseIn(s, now, period, a)
    case Remove =>
      var t :- CheckedSub48(now, 1);
      UnregisterIn(s, t, period, a)
  }

  ghost function ChangeSet(g: Grid, s: Entries, c: Change): Result<Entries> {
    var now :- g.Now(c.clock);
    ChangeAt(s, c.op, c.member, now, g.duration)
  }

  /** The set after a log of changes, if all of them go through. */
  ghost function Replay(g: Grid, log: seq<Change>): Result<Entries> {
    if log == [] then Ok([])
    else
      var s :- Replay(g, log[..|log| - 1]);
      ChangeSet(g, s, log[|log| - 1])
  }

  datatype Last = Untouched | Last(op: Op, clock: uint48)

  /** The last change of `a` in the log. */
  ghost function LastChange(log: seq<Change>, a: Address): Last {
    if log == [] then Untouched
    else
      var c := log[|log| - 1];
      if c.member == a then Last(c.op, c.clock) else LastChange(log[..|log| - 1], a)
  }

  /** The last change of `a` that put it in force: an addition or an unpause. */
  ghost function LastEnabling(log: seq<Change>, a: Address): Last {
    if log == [] then Untouched
    else
      var c := log[|log| - 1];
      if c.member == a && c.op in {Add, Unpause} then Last(c.op, c.clock) else LastEnabling(log[..|log| - 1], a)
  }

  /** The entry that the changes of a member have left: enabled at the start of the epoch that last put it
      in force, and if its last change is a pause, disabled one second before the start of that epoch. */
  ghost predicate EntryOfLog(g: Grid, table: map<Address, Entry>, a: Address, log: seq<Change>) {
    var last, enabling := LastChange(log, a), LastEnabling(log, a);
    if last.Untouched? || last.op.Remove? then a !in table
    else
      && a in table && enabling.Last? && g.Now(last.clock).Ok? && g.Now(enabling.clock).Ok?
      && table[a].addr == a && table[a].enabled == g.Now(enabling.clock).value
      && if last.op.Pause? then table[a].disabled + 1 == g.Now(last.clock).value
         else table[a].disabled == 0 && last == enabling
  }

  /** The table of entries after a change. */
  ghost function ChangeTable(table: map<Address, Entry>, op: Op, a: Address, now: uint48): map<Address, Entry> {
    match op
    case Add => table[a := Entry(a, now, 0)]
    case Pause => if a in table && now >= 1 then table[a := table[a].(disabled := now - 1)] else table
    case Unpause => table[a := Entry(a, now, 0)]
    case Remove => table - {a}
  }

  ghost predicate Becomes(r: Result<Entries>, table: map<Address, Entry>) {
    r.Ok? ==> Distinct(r.value) && Table(r.value) == table
  }

  lemma AddMeaning(s: Entries, a: Address, now: uint48, period: uint48)
    requires Distinct(s)
    ensures Becomes(ChangeAt(s, Add, a, now, period), ChangeTable(Table(s), Add, a, now))
  {
    RegisterMeaning(s, now, a);
  }

  lemma PausingMeaning(s: Entries, a: Address, now: uint48, period: uint48)
    requires Distinct(s)
    ensures Becomes(ChangeAt(s, Pause, a, now, period), ChangeTable(Table(s), Pause, a, now))
    ensures ChangeAt(s, Pause, a, now, period).Ok? ==> a in Table(s) && now >= 1
  {
    if now >= 1 {
      PauseMeaning(s, now - 1, a);
    }
  }

  lemma UnpausingMeaning(s: Entries, a: Address, now: uint48, period: uint48)
    requires Distinct(s)
    ensures Becomes(ChangeAt(s, Unpause, a, now, period), ChangeTable(Table(s), Unpause, a, now))
  {
    UnpauseMeaning(s, now, period, a);
  }

  lemma RemoveMeaning(s: Entries, a: Address, now: uint48, period: uint48)
    requires Distinct(s)
    ensures Becomes(ChangeAt(s, Remove, a, now, period), ChangeTable(Table(s), Remove, a, now))
  {
    if now >= 1 {
      UnregisterMeaning(s, now - 1, period, a);
    }
  }

  lemma ChangeMeaning(s: Entries, op: Op, a: Address, now: uint48, period: uint48)
    requires Distinct(s)
    ensures Becomes(ChangeAt(s, op, a, now, period), ChangeTable(Table(s), op, a, now))
    ensures op.Pause? && ChangeAt(s, op, a, now, period).Ok? ==> a in Table(s) && now >= 1
  {
    match op
    case Add => AddMeaning(s, a, now, period);
    case Pause => PausingMeaning(s, a, now, period);
    case Unpause => UnpausingMeaning(s, a, now, period);
    case Remove => RemoveMeaning(s, a, now, period);
  }

  lemma ChangeMakesEntry(g: Grid, table: map<Address, Entry>, c: Change, now: uint48, log: seq<Change>, a: Address)
    requires g.Now(c.clock) == Ok(now) && EntryOfLog(g, table, a, log)
    requires c.op.Pause? ==> c.member in table && now >= 1
    ensures EntryOfLog(g, ChangeTable(table, c.op, c.member, now), a, log + [c])
  {
    assert (log + [c])[..|log|] == log;
  }

  /** Block timestamps never decrease along the log. */
  ghost predicate Ordered(log: seq<Change>) {
    forall i, j :: 0 <= i < j < |log| ==> log[i].clock <= log[j].clock
  }

  /** Every change of the log lies in the past of `clock`. */
  ghost predicate Before(log: seq<Change>, clock: uint48) {
    Ordered(log) && forall i :: 0 <= i < |log| ==> log[i].clock <= clock
  }

  lemma {:induction false} LastIsPast(log: seq<Change>, clock: uint48, a: Address)
    requires Before(log, clock)
    ensures LastChange(log, a).Last? ==> LastChange(log, a).clock <= clock
    ensures LastEnabling(log, a).Last? ==> LastEnabling(log, a).clock <= clock
  {
    if log != [] {
      LastIsPast(log[..|log| - 1], clock, a);
    }
  }

  ghost predicate Entered(g: Grid, s: Entries, log: seq<Change>) {
    Distinct(s) && forall a :: EntryOfLog(g, Table(s), a, log)
  }

  lemma EnteredStep(g: Grid, s: Entries, front: seq<Change>, c: Change, r: Entries)
    requires Entered(g, s, front) && ChangeSet(g, s, c) == Ok(r)
    ensures Entered(g, r, front + [c])
  {
    var now := g.Now(c.clock).value;
    ChangeMeaning(s, c.op, c.member, now, g.duration);
    forall a ensures EntryOfLog(g, Table(r), a, front + [c]) {
      ChangeMakesEntry(g, Table(s), c, now, front, a);
    }
  }

  /** After every accepted history, each member's entry is the one its changes have left. */
  lemma {:induction false} ReplayEntries(g: Grid, log: seq<Change>)
    requires Replay(g, log).Ok?
    ensures Entered(g, Replay(g, log).value, log)
  {
    if log != [] {
      var front, c := log[..|log| - 1], log[|log| - 1];
      assert log == front + [c];
      ReplayEntries(g, front);
      ReplayGrows(g, front, c, Replay(g, front).value);
      EnteredStep(g, Replay(g, front).value, front, c, Replay(g, log).value);
    }
  }

  /** `a` is a member, put in force at the start of an epoch up to `t`, and if its last change is a pause,
      `t` lies before that epoch. Two early times are lost: an addition at second 0 never shows, and a
      pause in an epoch starting at second 1 does not. */
  ghost predicate InForce(g: Grid, log: seq<Change>, a: Address, t: uint48) {
    var last, enabling := LastChange(log, a), LastEnabling(log, a);
    && last.Last? && !last.op.Remove?
    && enabling.Last? && g.Now(enabling.clock).Ok? && 0 < g.Now(enabling.clock).value <= t
    && (last.op.Pause? ==> g.Now(last.clock).Ok? && (g.Now(last.clock).value == 1 || t < g.Now(last.clock).value))
  }

  /** Over every history, and for every time in the past or future, the set answers that `a` is active
      exactly when the history says it is in force. */
  lemma ActiveIffInForce(g: Grid, log: seq<Change>, a: Address, t: uint48)
    requires Replay(g, log).Ok?
    ensures Active(Table(Replay(g, log).value), a, t) <==> InForce(g, log, a, t)
  {
    ReplayEntries(g, log);
    assert EntryOfLog(g, Table(Replay(g, log).value), a, log);
  }

  /** For the current epoch, if the grid starts at second 2 or later: exactly when its last change added
      or unpaused it. */
  lemma ActiveIffLastChange(g: Grid, log: seq<Change>, clock: uint48, now: uint48, a: Address)
    requires Replay(g, log).Ok? && Before(log, clock) && g.Now(clock) == Ok(now) && g.start >= 2
    ensures Active(Table(Replay(g, log).value), a, now) <==>
            LastChange(log, a).Last? && LastChange(log, a).op in {Add, Unpause}
  {
    ReplayEntries(g, log);
    LastIsPast(log, clock, a);
    assert EntryOfLog(g, Table(Replay(g, log).value), a, log);
    ActiveIffInForce(g, log, a, now);
    var last, enabling := LastChange(log, a), LastEnabling(log, a);
    if last.Last? && !last.op.Remove? {
      NowInPast(g, last.clock, clock);
      NowInPast(g, enabling.clock, clock);
    }
  }

  lemma NowInPast(g: Grid, earlier: uint48, clock: uint48)
    requires earlier <= clock && g.Now(earlier).Ok?
    ensures g.Now(clock).Ok? && g.start <= g.Now(earlier).value <= g.Now(clock).value
  {
    g.NowIsEpochStart(earlier);
    g.NowIsEpochStart(clock);
    g.NowMonotoneAndIdempotent(earlier, clock);
  }

  /** When unpausing and removing `a` at `clock` go through. */
  ghost predicate Gates(g: Grid, s: Entries, clock: uint48, a: Address, unpause: bool, remove: bool) {
    && (ChangeSet(g, s, Change(clock, Unpause, a)).Ok? <==> unpause)
    && (ChangeSet(g, s, Change(clock, Remove, a)).Ok? <==> remove)
  }

  /** A member paused in epoch `j` can be unpaused and removed from the same moment on: the first
      second of the next epoch. With epochs of one second, it can be unpaused at once. */
  lemma PausedMemberGates(g: Grid, s: Entries, j: nat, clock: uint48, a: Address, now: uint48)
    requires g.duration > 0 && g.Tick(j) <= clock && g.Now(clock) == Ok(now)
    requires Distinct(s) && a in Table(s) && 0 < Table(s)[a].disabled && Table(s)[a].disabled + 1 == g.Tick(j)
    ensures Gates(g, s, clock, a, clock >= g.Tick(j + 1) || g.duration == 1, clock >= g.Tick(j + 1))
  {
    Lifecycle.GatesOpenTogether(g, Table(s)[a], j, clock);
    UnpauseMeaning(s, now, g.duration, a);
    UnregisterMeaning(s, now - 1, g.duration, a);
  }

  lemma UnmarkedMemberGates(g: Grid, s: Entries, clock: uint48, a: Address)
    requires Distinct(s) && a in Table(s) && Table(s)[a].disabled == 0
    ensures Gates(g, s, clock, a, false, false)
  {
  }

  /** A member whose last change is a pause at `paused` can be unpaused and removed from the same
      moment on, the first second of the epoch after the pause (unpaused at once, if epochs last one
      second); if that pause lost its mark, never. */
  ghost predicate PauseGates(g: Grid, s: Entries, clock: uint48, a: Address, paused: uint48)
    requires g.Running(paused)
  {
    var marked, over := g.Tick(g.EpochOf(paused)) != 1, clock >= g.Tick(g.EpochOf(paused) + 1);
    a in Addrs(s) && Gates(g, s, clock, a, marked && (over || g.duration == 1), marked && over)
  }

  lemma GatesOfEntry(g: Grid, s: Entries, clock: uint48, a: Address, paused: uint48)
    requires Distinct(s) && g.Running(paused) && paused <= clock && g.Tick(g.EpochOf(paused)) <= paused
    requires g.Now(paused) == Ok(g.Tick(g.EpochOf(paused))) && g.Now(clock).Ok?
    requires a in Table(s) && Table(s)[a].disabled + 1 == g.Tick(g.EpochOf(paused))
    ensures PauseGates(g, s, clock, a, paused)
  {
    if Table(s)[a].disabled == 0 {
      UnmarkedMemberGates(g, s, clock, a);
    } else {
      PausedMemberGates(g, s, g.EpochOf(paused), clock, a, g.Now(clock).value);
    }
  }

  lemma GatesAfterPause(g: Grid, log: seq<Change>, clock: uint48, a: Address, paused: uint48)
    requires Replay(g, log).Ok? && Before(log, clock)
    requires LastChange(log, a) == Last(Pause, paused)
    ensures g.Running(paused)
    ensures PauseGates(g, Replay(g, log).value, clock, a, paused)
  {
    ReplayEntries(g, log);
    LastIsPast(log, clock, a);
    g.NowIsEpochStart(paused);
    g.NowIsEpochStart(clock);
    assert EntryOfLog(g, Table(Replay(g, log).value), a, log);
    GatesOfEntry(g, Replay(g, log).value, clock, a, paused);
  }

  /** Only what was added is ever a member. */
  lemma {:induction false} MembersWereAdded(g: Grid, log: seq<Change>, a: Address)
    requires Replay(g, log).Ok? && a in Addrs(Replay(g, log).value)
    ensures exists i :: 0 <= i < |log| && log[i].op.Add? && log[i].member == a
  {
    var front, c := log[..|log| - 1], log[|log| - 1];
    var s := Replay(g, front).value;
    if !(c.op.Add? && c.member == a) {
      ChangeAddsNobodyElse(g, s, c, a);
      MembersWereAdded(g, front, a);
      var i :| 0 <= i < |front| && front[i].op.Add? && front[i].member == a;
      assert log[i] == front[i];
    }
  }

  lemma ChangeAddsNobodyElse(g: Grid, s: Entries, c: Change, a: Address)
    requires ChangeSet(g, s, c).Ok? && a in Addrs(ChangeSet(g, s, c).value) && !(c.op.Add? && c.member == a)
    ensures a in Addrs(s)
  {
    var r := ChangeSet(g, s, c).value;
    var k := IndexOf(r, a);
    if c.op.Remove? {
      var i := IndexOf(s, c.member);
      assert r[k] == s[if k == i then |s| - 1 else k];
    } else {
      assert s[k].addr == a;
    }
  }

  // ---------- The owner's calls ----------

  /** A call by the owner: what the outside answers at the time, and the change asked for. */
  datatype Call<+W> = Call(answers: W, change: Change)

  /** A contract's calls: each may check something first, and then asks for the change. */
  type Steps<!W> = (Entries, Call<W>) -> Result<Entries>

  ghost predicate Guards<W(!new)>(g: Grid, step: Steps<W>) {
    forall s, call: Call<W> :: step(s, call).Ok? ==> step(s, call) == ChangeSet(g, s, call.change)
  }

  /** The set after a history of calls; a reverted call changes nothing. */
  ghost function Run<W>(step: Steps<W>, calls: seq<Call<W>>): Entries {
    if calls == [] then []
    else
      var before := Run(step, calls[..|calls| - 1]);
      match step(before, calls[|calls| - 1])
      case Ok(after) => after
      case Revert(_) => before
  }

  /** The changes that went through. */
  ghost function Accepted<W>(step: Steps<W>, calls: seq<Call<W>>): seq<Change> {
    if calls == [] then []
    else
      var n := |calls| - 1;
      Accepted(step, calls[..n]) + if step(Run(step, calls[..n]), calls[n]).Ok? then [calls[n].change] else []
  }

  ghost predicate CallsBefore<W>(calls: seq<Call<W>>, clock: uint48) {
    && (forall i, j :: 0 <= i < j < |calls| ==> calls[i].change.clock <= calls[j].change.clock)
    && (forall i :: 0 <= i < |calls| ==> calls[i].change.clock <= clock)
  }

  lemma ReplayGrows(g: Grid, log: seq<Change>, c: Change, s: Entries)
    requires Replay(g, log) == Ok(s)
    ensures Replay(g, log + [c]) == ChangeSet(g, s, c)
  {
    assert (log + [c])[..|log|] == log;
  }

  lemma Guarded<W(!new)>(g: Grid, step: Steps<W>, s: Entries, call: Call<W>)
    requires Guards(g, step)
    ensures step(s, call).Ok? ==> step(s, call) == ChangeSet(g, s, call.change)
  {
  }

  /** Running calls is replaying the accepted changes. */
  lemma {:induction false} RunIsReplay<W(!new)>(g: Grid, step: Steps<W>, calls: seq<Call<W>>)
    requires Guards(g, step)
    ensures Replay(g, Accepted(step, calls)) == Ok(Run(step, calls))
  {
    if calls != [] {
      var front, call := calls[..|calls| - 1], calls[|calls| - 1];
      RunIsReplay(g, step, front);
      var s, log := Run(step, front), Accepted(step, front);
      if step(s, call).Ok? {
        assert Accepted(step, calls) == log + [call.change];
        Guarded(g, step, s, call);
        ReplayGrows(g, log, call.change, s);
      } else {
        assert Accepted(step, calls) == log + [] == log;
      }
    }
  }

  lemma {:induction false} AcceptedBefore<W>(step: Steps<W>, calls: seq<Call<W>>, clock: uint48)
    requires CallsBefore(calls, clock)
    ensures Before(Accepted(step, calls), clock)
  {
    if calls != [] {
      AcceptedBefore(step, calls[..|calls| - 1], calls[|calls| - 1].change.clock);
    }
  }

  lemma {:induction false} AcceptedWasCalled<W>(step: Steps<W>, calls: seq<Call<W>>, c: Change)
    requires c in Accepted(step, calls)
    ensures exists i :: 0 <= i < |calls| && calls[i].change == c && step(Run(step, calls[..i]), calls[i]).Ok?
  {
    var n := |calls| - 1;
    if c in Accepted(step, calls[..n]) {
      AcceptedWasCalled(step, calls[..n], c);
      var i :| 0 <= i < n && calls[..n][i].change == c && step(Run(step, calls[..n][..i]), calls[..n][i]).Ok?;
      assert calls[..n][..i] == calls[..i] && calls[i] == calls[..n][i];
    } else {
      assert calls[n].change == c;
    }
  }
}
