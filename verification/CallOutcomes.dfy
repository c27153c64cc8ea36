/** What callers of `OperatorsRegistryV1` can rely on, without looking at how a call is specified: why a
    call reverts, and what the record of an operator holds after any history of calls. */
module CallOutcomes {
  import opened Evm
  import opened EpochGrid
  import opened PauseableSet
  import opened CleanupPass
  import opened RegistrySpec

  // ---------- Why a call reverts ----------

  ghost predicate FromMiddleware(cfg: Config, call: Call) {
    call.sender == cfg.eigenLayer || call.sender == cfg.symbiotic
  }

  /** Everything but cleanup is for the two middlewares only, and everything but that and registering is
      for members only. */
  lemma StrangersRevert(cfg: Config, st: State, call: Call)
    requires !call.command.Cleanup?
    ensures Step(cfg, st, call) == Revert(OnlyRestakingMiddlewares) <==> !FromMiddleware(cfg, call)
    ensures FromMiddleware(cfg, call) && !call.command.Register? ==>
              (Step(cfg, st, call) == Revert(UnknownOperator) <==> call.command.signer !in Addrs(st.entries))
  {
    if FromMiddleware(cfg, call) {
      RevertsApart(cfg, st, call);
    }
  }

  lemma RevertsApart(cfg: Config, st: State, call: Call)
    requires cfg.IsMiddleware(call.sender) && !call.command.Cleanup?
    ensures Step(cfg, st, call) != Revert(OnlyRestakingMiddlewares)
    ensures !call.command.Register? && call.command.signer in Addrs(st.entries) ==>
              Step(cfg, st, call) != Revert(UnknownOperator)
  {
  }

  lemma RegisterReasons(cfg: Config, st: State, call: Call, now: uint48)
    requires FromMiddleware(cfg, call) && call.command.Register? && cfg.grid.Now(call.clock) == Ok(now)
    ensures var r, c := Step(cfg, st, call), call.command;
            if c.rpcEndpoint == "" then r == Revert(InvalidRpc)
            else if c.signer == 0 then r == Revert(InvalidSigner)
            else if c.signer in Addrs(st.entries) then r == Revert(AlreadyRegistered)
            else r.Ok?
  {
  }

  /** When the period of a pause ends, and what a guard that asks for it says at `t`. */
  ghost predicate GuardSays(e: Entry, t: int, period: uint48, notPaused: Error, r: Result<State>) {
    if e.disabled == 0 then r == Revert(notPaused)
    else if e.disabled + period > MAX_UINT48 then r == Revert(ArithmeticPanic)
    else if e.disabled + period > t then r == Revert(ImmutablePeriodNotPassed)
    else r.Ok?
  }

  lemma PauseReasons(cfg: Config, st: State, sender: Address, now: uint48, a: Address)
    requires (sender == cfg.eigenLayer || sender == cfg.symbiotic) && a in Table(st.entries)
    ensures var r, e := PauseCall(cfg, st, sender, Ok(now), a), Table(st.entries)[a];
            if now == 0 then r == Revert(ArithmeticPanic)
            else if e.disabled != 0 then r == Revert(NotEnabled)
            else r.Ok?
  {
  }

  lemma UnpauseReasons(cfg: Config, st: State, sender: Address, now: uint48, a: Address)
    requires (sender == cfg.eigenLayer || sender == cfg.symbiotic) && a in Table(st.entries)
    ensures GuardSays(Table(st.entries)[a], now, cfg.grid.duration, AlreadyEnabled,
                      UnpauseCall(cfg, st, sender, Ok(now), a))
  {
  }

  lemma DeregisterReasons(cfg: Config, st: State, sender: Address, now: uint48, a: Address)
    requires (sender == cfg.eigenLayer || sender == cfg.symbiotic) && a in Table(st.entries)
    ensures var r := DeregisterCall(cfg, st, sender, Ok(now), a);
            if now == 0 then r == Revert(ArithmeticPanic)
            else GuardSays(Table(st.entries)[a], now - 1, cfg.grid.duration, Enabled, r)
  {
  }

  /** Cleanup of an empty set never looks at the clock; of any other, it fails if there is no epoch. */
  lemma CleanupReasons(cfg: Config, st: State, call: Call)
    requires call.command.Cleanup?
    ensures st.entries == [] ==> Step(cfg, st, call) == Ok(st)
    ensures st.entries != [] && cfg.grid.Now(call.clock).Revert? ==>
              Step(cfg, st, call) == Revert(cfg.grid.Now(call.clock).error)
  {
  }

  // ---------- What a record holds ----------

  /** What each accepted call does to the records. */
  lemma RecordsMove(cfg: Config, st: State, call: Call)
    requires Consistent(st) && Step(cfg, st, call).Ok?
    ensures var before, after := st.operators, Step(cfg, st, call).value.operators;
            match call.command
            case Register(a, rpc, extra) => after == before[a := Operator(a, rpc, call.sender, extra)]
            case UpdateRpc(a, rpc) =>
              a in before && after == before[a := Operator(a, rpc, before[a].restakingMiddleware, before[a].extraData)]
            case _ => forall a :: a in after ==> a in before && after[a] == before[a]
  {
  }

  ghost predicate WasAccepted(cfg: Config, calls: seq<Call>, i: nat) {
    i < |calls| && Step(cfg, Run(cfg, calls[..i]), calls[i]).Ok?
  }

  ghost predicate Joins(call: Call, a: Address) {
    call.command.Register? && call.command.signer == a
  }

  ghost predicate SetsEndpoint(call: Call, a: Address) {
    (call.command.Register? || call.command.UpdateRpc?) && call.command.signer == a
  }

  ghost predicate LastJoin(cfg: Config, calls: seq<Call>, a: Address, i: nat) {
    && WasAccepted(cfg, calls, i) && Joins(calls[i], a)
    && forall n: nat :: i < n && WasAccepted(cfg, calls, n) ==> !Joins(calls[n], a)
  }

  ghost predicate LastEndpoint(cfg: Config, calls: seq<Call>, a: Address, i: nat) {
    && WasAccepted(cfg, calls, i) && SetsEndpoint(calls[i], a)
    && forall n: nat :: i < n && WasAccepted(cfg, calls, n) ==> !SetsEndpoint(calls[n], a)
  }

  lemma AcceptedBefore(cfg: Config, calls: seq<Call>, i: nat)
    requires calls != []
    ensures i < |calls| - 1 ==> (WasAccepted(cfg, calls, i) <==> WasAccepted(cfg, calls[..|calls| - 1], i))
    ensures i < |calls| - 1 ==> calls[..|calls| - 1][i] == calls[i]
    ensures i == |calls| - 1 ==> (WasAccepted(cfg, calls, i) <==> Step(cfg, Run(cfg, calls[..i]), calls[i]).Ok?)
  {
    if i < |calls| - 1 {
      assert calls[..|calls| - 1][..i] == calls[..i];
    }
  }

  /** A later call that is rejected, or does not join `a`, leaves the last join where it was. */
  lemma LastJoinStays(cfg: Config, calls: seq<Call>, a: Address, i: nat)
    requires calls != [] && LastJoin(cfg, calls[..|calls| - 1], a, i)
    requires WasAccepted(cfg, calls, |calls| - 1) ==> !Joins(calls[|calls| - 1], a)
    ensures LastJoin(cfg, calls, a, i)
  {
    AcceptedBefore(cfg, calls, i);
    forall n: nat | i < n && WasAccepted(cfg, calls, n) ensures !Joins(calls[n], a) {
      AcceptedBefore(cfg, calls, n);
    }
  }

  lemma LastEndpointStays(cfg: Config, calls: seq<Call>, a: Address, i: nat)
    requires calls != [] && LastEndpoint(cfg, calls[..|calls| - 1], a, i)
    requires WasAccepted(cfg, calls, |calls| - 1) ==> !SetsEndpoint(calls[|calls| - 1], a)
    ensures LastEndpoint(cfg, calls, a, i)
  {
    AcceptedBefore(cfg, calls, i);
    forall n: nat | i < n && WasAccepted(cfg, calls, n) ensures !SetsEndpoint(calls[n], a) {
      AcceptedBefore(cfg, calls, n);
    }
  }

  /** The record is that of `a`, with the endpoint of the last accepted call that registered it or updated
      its endpoint, and the sender and extra data of the last accepted call that registered it. */
  ghost predicate RecordOfHistory(cfg: Config, calls: seq<Call>, a: Address, record: Operator, join: nat, update: nat) {
    && LastJoin(cfg, calls, a, join) && LastEndpoint(cfg, calls, a, update)
    && record == Operator(a, calls[update].command.rpcEndpoint, calls[join].sender, calls[join].command.extraData)
  }

  /** After every history each member's record is the one the history tells. */
  lemma RecordsFollowHistory(cfg: Config, calls: seq<Call>, a: Address) returns (join: nat, update: nat)
    requires a in Addrs(Run(cfg, calls).entries)
    ensures a in Run(cfg, calls).operators
    ensures RecordOfHistory(cfg, calls, a, Run(cfg, calls).operators[a], join, update)
    decreases |calls|
  {
    var n, front, call := |calls| - 1, calls[..|calls| - 1], calls[|calls| - 1];
    ReachableConsistent(cfg, calls);
    ReachableConsistent(cfg, front);
    AcceptedBefore(cfg, calls, n);
    if WasAccepted(cfg, calls, n) {
      RecordsMove(cfg, Run(cfg, front), call);
    }
    if WasAccepted(cfg, calls, n) && Joins(call, a) {
      join, update := n, n;
    } else {
      join, update := RecordsFollowHistory(cfg, front, a);
      LastJoinStays(cfg, calls, a, join);
      AcceptedBefore(cfg, calls, join);
      AcceptedBefore(cfg, calls, update);
      if WasAccepted(cfg, calls, n) && SetsEndpoint(call, a) {
        update := n;
      } else {
        LastEndpointStays(cfg, calls, a, update);
      }
    }
  }
}
