/** What each call of `OperatorsRegistryV1` does to the operator set and the operator records,
    and the invariant that ties the two together in every reachable state. */
module RegistrySpec {
  import opened Evm
  import opened EpochGrid
  import opened PauseableSet
  import opened CleanupPass

  datatype Operator = Operator(signer: Address, rpcEndpoint: string, restakingMiddleware: Address, extraData: string)

  /** The record a Solidity mapping holds for a key never written. */
  const NO_OPERATOR := Operator(ZERO_ADDRESS, "", ZERO_ADDRESS, "")

  datatype Config = Config(grid: Grid, eigenLayer: Address, symbiotic: Address) {
    predicate IsMiddleware(sender: Address) {
      sender == eigenLayer || sender == symbiotic
    }
  }

  datatype State = State(entries: Entries, operators: map<Address, Operator>) {
    function Record(a: Address): Operator {
      if a in operators then operators[a] else NO_OPERATOR
    }
  }

  const EMPTY := State([], map[])

  datatype Command =
    | Register(signer: Address, rpcEndpoint: string, extraData: string)
    | Pause(signer: Address)
    | Unpause(signer: Address)
    | UpdateRpc(signer: Address, rpcEndpoint: string)
    | Deregister(signer: Address)
    | Cleanup

  datatype Call = Call(sender: Address, clock: uint48, command: Command)

  // ---------- The calls, given the current epoch's start or the failure to compute it ----------

  ghost function RegisterCall(cfg: Config, st: State, sender: Address, now: Result<uint48>,
                              signer: Address, rpc: string, extra: string): Result<State> {
    var _ :- Require(cfg.IsMiddleware(sender), OnlyRestakingMiddlewares);
    var _ :- Require(rpc != "", InvalidRpc);
    var _ :- Require(signer != ZERO_ADDRESS, InvalidSigner);
    var now :- now;
    var entries :- RegisterIn(st.entries, now, signer);
    Ok(State(entries, st.operators[signer := Operator(signer, rpc, sender, extra)]))
  }

  ghost function PauseCall(cfg: Config, st: State, sender: Address, now: Result<uint48>, signer: Address): Result<State> {
    var _ :- Require(cfg.IsMiddleware(sender), OnlyRestakingMiddlewares);
    var _ :- Require(signer in Addrs(st.entries), UnknownOperator);
    var now :- now;
    var t :- CheckedSub48(now, 1);
    var entries :- PauseIn(st.entries, t, signer);
    Ok(st.(entries := entries))
  }

  ghost function UnpauseCall(cfg: Config, st: State, sender: Address, now: Result<uint48>, signer: Address): Result<State> {
    var _ :- Require(cfg.IsMiddleware(sender), OnlyRestakingMiddlewares);
    var _ :- Require(signer in Addrs(st.entries), UnknownOperator);
    var now :- now;
    var entries :- UnpauseIn(st.entries, now, cfg.grid.duration, signer);
    Ok(st.(entries := entries))
  }

  ghost function UpdateRpcCall(cfg: Config, st: State, sender: Address, signer: Address, rpc: string): Result<State> {
    var _ :- Require(cfg.IsMiddleware(sender), OnlyRestakingMiddlewares);
    var _ :- Require(signer in Addrs(st.entries), UnknownOperator);
    var _ :- Require(rpc != "", InvalidRpc);
    Ok(st.(operators := st.operators[signer := st.Record(signer).(rpcEndpoint := rpc)]))
  }

  ghost function DeregisterCall(cfg: Config, st: State, sender: Address, now: Result<uint48>, signer: Address): Result<State> {
    var _ :- Require(cfg.IsMiddleware(sender), OnlyRestakingMiddlewares);
    var _ :- Require(signer in Addrs(st.entries), UnknownOperator);
    var now :- now;
    var t :- CheckedSub48(now, 1);
    var entries :- UnregisterIn(st.entries, t, cfg.grid.duration, signer);
    Ok(State(entries, st.operators - {signer}))
  }

  ghost function CleanupCall(cfg: Config, st: State, now: Result<uint48>): Result<State> {
    if st.entries == [] then Ok(st)
    else
      var now :- now;
      if SweepOverflows(st.entries, 0, now, cfg.grid.duration) then Revert(ArithmeticPanic)
      else
        var left := Sweep(st.entries, 0, now, cfg.grid.duration);
        Ok(State(left, st.operators - (Addrs(st.entries) - Addrs(left))))
  }

  ghost function Step(cfg: Config, st: State, call: Call): Result<State> {
    var now := cfg.grid.Now(call.clock);
    match call.command
    case Register(signer, rpc, extra) => RegisterCall(cfg, st, call.sender, now, signer, rpc, extra)
    case Pause(signer) => PauseCall(cfg, st, call.sender, now, signer)
    case Unpause(signer) => UnpauseCall(cfg, st, call.sender, now, signer)
    case UpdateRpc(signer, rpc) => UpdateRpcCall(cfg, st, call.sender, signer, rpc)
    case Deregister(signer) => DeregisterCall(cfg, st, call.sender, now, signer)
    case Cleanup => CleanupCall(cfg, st, now)
  }

  /** The state after a history of calls; a reverted call changes nothing. */
  ghost function Run(cfg: Config, calls: seq<Call>): State {
    if calls == [] then EMPTY
    else
      var before := Run(cfg, calls[..|calls| - 1]);
      match Step(cfg, before, calls[|calls| - 1])
      case Ok(after) => after
      case Revert(_) => before
  }

  ghost predicate IsActive(st: State, a: Address, now: uint48) {
    a in Table(st.entries) && ActiveAt(Table(st.entries)[a].enabled, Table(st.entries)[a].disabled, now)
  }

  // ---------- Set and records agree ----------

  /** The set has no duplicates and exactly its members have a record, which is their own and
      well formed. */
  ghost predicate Consistent(st: State) {
    && Distinct(st.entries)
    && st.operators.Keys == Addrs(st.entries)
    && forall a :: a in st.operators ==>
         a != ZERO_ADDRESS && st.operators[a].signer == a && st.operators[a].rpcEndpoint != ""
  }

  /** A new table of entries with matching records keeps the state consistent. */
  lemma ConsistentAgain(st: State, next: State)
    requires Consistent(st) && Distinct(next.entries)
    requires next.operators.Keys == Addrs(next.entries)
    requires forall a :: a in next.operators ==>
               || (a in st.operators && next.operators[a] == st.operators[a])
               || (a != ZERO_ADDRESS && next.operators[a].signer == a && next.operators[a].rpcEndpoint != "")
    ensures Consistent(next)
  {
  }

  lemma RegisterKeepsConsistent(cfg: Config, st: State, sender: Address, now: Result<uint48>,
                                signer: Address, rpc: string, extra: string)
    requires Consistent(st)
    ensures var r := RegisterCall(cfg, st, sender, now, signer, rpc, extra);
            r.Ok? ==> Consistent(r.value)
  {
    var r := RegisterCall(cfg, st, sender, now, signer, rpc, extra);
    if r.Ok? {
      RegisterAddrs(st.entries, now.value, signer);
      ConsistentAgain(st, r.value);
    }
  }

  lemma PauseKeepsConsistent(cfg: Config, st: State, sender: Address, now: Result<uint48>, signer: Address)
    requires Consistent(st)
    ensures var r := PauseCall(cfg, st, sender, now, signer);
            r.Ok? ==> Consistent(r.value)
  {
    var r := PauseCall(cfg, st, sender, now, signer);
    if r.Ok? {
      PauseAddrs(st.entries, now.value - 1, signer);
      ConsistentAgain(st, r.value);
    }
  }

  lemma UnpauseKeepsConsistent(cfg: Config, st: State, sender: Address, now: Result<uint48>, signer: Address)
    requires Consistent(st)
    ensures var r := UnpauseCall(cfg, st, sender, now, signer);
            r.Ok? ==> Consistent(r.value)
  {
    var r := UnpauseCall(cfg, st, sender, now, signer);
    if r.Ok? {
      UnpauseAddrs(st.entries, now.value, cfg.grid.duration, signer);
      ConsistentAgain(st, r.value);
    }
  }

  lemma DeregisterKeepsConsistent(cfg: Config, st: State, sender: Address, now: Result<uint48>, signer: Address)
    requires Consistent(st)
    ensures var r := DeregisterCall(cfg, st, sender, now, signer);
            r.Ok? ==> Consistent(r.value)
  {
    var r := DeregisterCall(cfg, st, sender, now, signer);
    if r.Ok? {
      UnregisterAddrs(st.entries, now.value - 1, cfg.grid.duration, signer);
      ConsistentAgain(st, r.value);
    }
  }

  lemma CleanupKeepsConsistent(cfg: Config, st: State, now: Result<uint48>)
    requires Consistent(st)
    ensures var r := CleanupCall(cfg, st, now);
            r.Ok? ==> Consistent(r.value)
  {
    var r := CleanupCall(cfg, st, now);
    if r.Ok? && st.entries != [] {
      SweepTable(st.entries, 0, now.value, cfg.grid.duration);
      ConsistentAgain(st, r.value);
    }
  }

  lemma StepKeepsConsistent(cfg: Config, st: State, call: Call)
    requires Consistent(st) && Step(cfg, st, call).Ok?
    ensures Consistent(Step(cfg, st, call).value)
  {
    var now := cfg.grid.Now(call.clock);
    match call.command
    case Register(signer, rpc, extra) =>
      RegisterKeepsConsistent(cfg, st, call.sender, now, signer, rpc, extra);
    case Pause(signer) => PauseKeepsConsistent(cfg, st, call.sender, now, signer);
    case Unpause(signer) => UnpauseKeepsConsistent(cfg, st, call.sender, now, signer);
    case UpdateRpc(_, _) =>
    case Deregister(signer) => DeregisterKeepsConsistent(cfg, st, call.sender, now, signer);
    case Cleanup => CleanupKeepsConsistent(cfg, st, now);
  }

  /** Every reachable state is consistent, whoever called what and when. */
  lemma {:induction false} ReachableConsistent(cfg: Config, calls: seq<Call>)
    ensures Consistent(Run(cfg, calls))
  {
    if calls != [] {
      var before := Run(cfg, calls[..|calls| - 1]);
      ReachableConsistent(cfg, calls[..|calls| - 1]);
      if Step(cfg, before, calls[|calls| - 1]).Ok? {
        StepKeepsConsistent(cfg, before, calls[|calls| - 1]);
      }
    }
  }
}
