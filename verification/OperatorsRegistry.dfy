/** `OperatorsRegistryV1`: the contract's storage and its entry points, updated in place. Each entry
    point is proved to do what `RegistrySpec` says, including its reverts, and to keep the operator
    set and the operator records in agreement. */
module OperatorsRegistry {
  import opened Evm
  import opened EpochGrid
  import opened PauseableSet
  import opened CleanupPass
  import opened RegistrySpec

  /** One turn of the cleanup loop at an entry whose period end is in range. */
  ghost function AfterBody(st: State, i: nat, t: uint48, period: uint48): State
    requires i < |st.entries|
  {
    if Expired(st.entries[i], t, period)
    then State(SwapRemove(st.entries, i), st.operators - {st.entries[i].addr})
    else st
  }

  /** The rest of the cleanup loop from index `i`; every turn looks at `now`. */
  ghost function LoopFrom(st: State, i: nat, now: Result<uint48>, period: uint48): Result<State>
    decreases |st.entries| - i
  {
    if i >= |st.entries| then Ok(st)
    else
      var t :- now;
      if Overflows(st.entries[i], period) then Revert(ArithmeticPanic)
      else LoopFrom(AfterBody(st, i, t, period), i + 1, now, period)
  }

  /** Deleting record by record along the way deletes the records of exactly those that are gone. */
  lemma {:induction false} LoopIsSweep(st: State, i: nat, t: uint48, period: uint48)
    requires Distinct(st.entries)
    ensures var left := Sweep(st.entries, i, t, period);
            LoopFrom(st, i, Ok(t), period) ==
            if SweepOverflows(st.entries, i, t, period) then Revert(ArithmeticPanic)
            else Ok(State(left, st.operators - (Addrs(st.entries) - Addrs(left))))
    decreases |st.entries| - i
  {
    var s, left := st.entries, Sweep(st.entries, i, t, period);
    if i >= |s| {
      assert st.operators == st.operators - (Addrs(s) - Addrs(left));
    } else if !Overflows(s[i], period) {
      var next := AfterBody(st, i, t, period);
      if Expired(s[i], t, period) {
        SwapRemoveAddrs(s, i);
        SwapRemoveDistinct(s, i);
        SweepTable(next.entries, i + 1, t, period);
        LoopIsSweep(next, i + 1, t, period);
        RemoveOneMore(st.operators, Addrs(s), s[i].addr, Addrs(left));
      } else {
        LoopIsSweep(st, i + 1, t, period);
      }
    }
  }

  lemma CleanupIsLoop(cfg: Config, st: State, now: Result<uint48>)
    requires Distinct(st.entries)
    ensures CleanupCall(cfg, st, now) == LoopFrom(st, 0, now, cfg.grid.duration)
  {
    if st.entries != [] && now.Ok? {
      LoopIsSweep(st, 0, now.value, cfg.grid.duration);
    }
  }

  lemma {:induction false} ActiveAreMembers(s: Entries, t: uint48)
    ensures forall i :: 0 <= i < |ActiveAddrs(s, t)| ==> ActiveAddrs(s, t)[i] in Addrs(s)
  {
    if s != [] {
      var front := s[..|s| - 1];
      ActiveAreMembers(front, t);
      assert s == front + [s[|s| - 1]];
      AppendAddrs(front, s[|s| - 1]);
    }
  }

  lemma RemoveOneMore(records: map<Address, Operator>, all: set<Address>, a: Address, left: set<Address>)
    requires a in all && left <= all - {a}
    ensures records - {a} - (all - {a} - left) == records - (all - left)
  {
    assert all - left == {a} + (all - {a} - left);
  }

  class Registry {
    const config: Config
    const operatorAddresses: AddressSet
    var operators: map<Address, Operator>

    ghost function View(): State
      reads this, operatorAddresses
    {
      State(operatorAddresses.elements, operators)
    }

    ghost predicate Valid()
      reads this, operatorAddresses
    {
      operatorAddresses.Valid() && Consistent(View())
    }

    /** `initialize`: the grid starts at the block's timestamp. */
    constructor (clock: uint48, epochDuration: uint48, eigenLayer: Address, symbiotic: Address)
      ensures Valid() && View() == EMPTY && fresh(operatorAddresses)
      ensures config == Config(Grid(clock, epochDuration), eigenLayer, symbiotic)
    {
      config := Config(Grid(clock, epochDuration), eigenLayer, symbiotic);
      operators := map[];
      operatorAddresses := new AddressSet();
    }

    function Now(clock: uint48): Result<uint48> {
      config.grid.Now(clock)
    }

    function Record(a: Address): Operator
      reads this
    {
      if a in operators then operators[a] else NO_OPERATOR
    }

    method RegisterOperator(sender: Address, clock: uint48, signer: Address, rpc: string, extra: string)
      returns (r: Result<()>)
      requires Valid()
      modifies this, operatorAddresses
      ensures Valid()
      ensures Follows(r, RegisterCall(config, old(View()), sender, Now(clock), signer, rpc, extra), old(View()), View())
    {
      RegisterKeepsConsistent(config, View(), sender, Now(clock), signer, rpc, extra);
      var _ :- Require(config.IsMiddleware(sender), OnlyRestakingMiddlewares);
      var _ :- Require(|rpc| > 0, InvalidRpc);
      var _ :- Require(signer != ZERO_ADDRESS, InvalidSigner);
      var now :- Now(clock);
      var _ :- operatorAddresses.Register(now, signer);
      operators := operators[signer := Operator(signer, rpc, sender, extra)];
      return Ok(());
    }

    method PauseOperator(sender: Address, clock: uint48, signer: Address) returns (r: Result<()>)
      requires Valid()
      modifies this, operatorAddresses
      ensures Valid()
      ensures Follows(r, PauseCall(config, old(View()), sender, Now(clock), signer), old(View()), View())
    {
      PauseKeepsConsistent(config, View(), sender, Now(clock), signer);
      var _ :- Require(config.IsMiddleware(sender), OnlyRestakingMiddlewares);
      var known := operatorAddresses.Contains(signer);
      var _ :- Require(known, UnknownOperator);
      var now :- Now(clock);
      var t :- CheckedSub48(now, 1);
      r := operatorAddresses.Pause(t, signer);
    }

    method UnpauseOperator(sender: Address, clock: uint48, signer: Address) returns (r: Result<()>)
      requires Valid()
      modifies this, operatorAddresses
      ensures Valid()
      ensures Follows(r, UnpauseCall(config, old(View()), sender, Now(clock), signer), old(View()), View())
    {
      UnpauseKeepsConsistent(config, View(), sender, Now(clock), signer);
      var _ :- Require(config.IsMiddleware(sender), OnlyRestakingMiddlewares);
      var known := operatorAddresses.Contains(signer);
      var _ :- Require(known, UnknownOperator);
      var now :- Now(clock);
      r := operatorAddresses.Unpause(now, config.grid.duration, signer);
    }

    method UpdateOperatorRpcEndpoint(sender: Address, signer: Address, rpc: string) returns (r: Result<()>)
      requires Valid()
      modifies this
      ensures Valid()
      ensures Follows(r, UpdateRpcCall(config, old(View()), sender, signer, rpc), old(View()), View())
      ensures r.Ok? ==> signer in operators && operators[signer].rpcEndpoint == rpc
    {
      var _ :- Require(config.IsMiddleware(sender), OnlyRestakingMiddlewares);
      var known := operatorAddresses.Contains(signer);
      var _ :- Require(known, UnknownOperator);
      var _ :- Require(|rpc| > 0, InvalidRpc);
      operators := operators[signer := Record(signer).(rpcEndpoint := rpc)];
      return Ok(());
    }

    method DeregisterOperator(sender: Address, clock: uint48, signer: Address) returns (r: Result<()>)
      requires Valid()
      modifies this, operatorAddresses
      ensures Valid()
      ensures Follows(r, DeregisterCall(config, old(View()), sender, Now(clock), signer), old(View()), View())
    {
      DeregisterKeepsConsistent(config, View(), sender, Now(clock), signer);
      var _ :- Require(config.IsMiddleware(sender), OnlyRestakingMiddlewares);
      var known := operatorAddresses.Contains(signer);
      var _ :- Require(known, UnknownOperator);
      var now :- Now(clock);
      var t :- CheckedSub48(now, 1);
      var _ :- operatorAddresses.Unregister(t, config.grid.duration, signer);
      operators := operators - {signer};
      return Ok(());
    }

    /** The body of the cleanup loop: drop the entry at `i` and its record if it has expired. */
    method RemoveIfExpired(i: nat, now: uint48) returns (r: Result<()>)
      requires operatorAddresses.Valid() && i < |operatorAddresses.elements|
      modifies this, operatorAddresses
      ensures operatorAddresses.Valid()
      ensures if Overflows(old(View()).entries[i], config.grid.duration) then r == Revert(ArithmeticPanic)
              else r == Ok(()) && View() == AfterBody(old(View()), i, now, config.grid.duration)
    {
      var signer := operatorAddresses.elements[i].addr;
      InverseIsDistinct(operatorAddresses.elements, operatorAddresses.positions);
      TableAt(operatorAddresses.elements, i);
      var expired :- operatorAddresses.CheckUnregister(now, config.grid.duration, signer);
      if expired {
        r := operatorAddresses.Unregister(now, config.grid.duration, signer);
        assert r.Ok?;
        operators := operators - {signer};
      }
      return Ok(());
    }

    /** The loop removes from the set it is walking over; `now` is looked at in every turn. When the
        loop reverts, it stops half way. */
    method CleanupLoop(now: Result<uint48>) returns (r: Result<()>)
      requires operatorAddresses.Valid()
      modifies this, operatorAddresses
      ensures operatorAddresses.Valid()
      ensures match LoopFrom(old(View()), 0, now, config.grid.duration)
              case Ok(next) => r == Ok(()) && View() == next
              case Revert(error) => r == Revert(error)
    {
      var i := 0;
      while i < |operatorAddresses.elements|
        invariant operatorAddresses.Valid()
        invariant LoopFrom(View(), i, now, config.grid.duration) == LoopFrom(old(View()), 0, now, config.grid.duration)
        decreases |operatorAddresses.elements| - i
      {
        var epochStart :- now;
        var _ :- RemoveIfExpired(i, epochStart);
        i := i + 1;
      }
      return Ok(());
    }

    /** A revert undoes the removals already made. */
    method Cleanup(clock: uint48) returns (r: Result<()>)
      requires Valid()
      modifies this, operatorAddresses
      ensures Valid()
      ensures Follows(r, CleanupCall(config, old(View()), Now(clock)), old(View()), View())
    {
      CleanupKeepsConsistent(config, View(), Now(clock));
      CleanupIsLoop(config, View(), Now(clock));
      var elements, positions, records := operatorAddresses.elements, operatorAddresses.positions, operators;
      r := CleanupLoop(Now(clock));
      if r.Revert? {
        operatorAddresses.elements, operatorAddresses.positions, operators := elements, positions, records;
      }
    }

    /** One record per member, in set order. */
    method GetAllOperators() returns (ops: array<Operator>)
      requires Valid()
      ensures fresh(ops)
      ensures ops.Length == |operatorAddresses.elements|
      ensures forall i :: 0 <= i < ops.Length ==>
                var a := operatorAddresses.elements[i].addr;
                a in operators && ops[i] == operators[a]
      ensures forall i :: 0 <= i < ops.Length ==>
                ops[i].signer == operatorAddresses.elements[i].addr && ops[i].rpcEndpoint != ""
    {
      ops := new Operator[|operatorAddresses.elements|](_ => NO_OPERATOR);
      for i := 0 to |operatorAddresses.elements|
        invariant forall k :: 0 <= k < i ==> ops[k] == Record(operatorAddresses.elements[k].addr)
      {
        ops[i] := Record(operatorAddresses.elements[i].addr);
      }
    }

    /** The records of the members active in this epoch, in set order. */
    method GetActiveOperators(clock: uint48) returns (r: Result<array<Operator>>)
      requires Valid()
      ensures r.Ok? <==> config.grid.Running(clock)
      ensures r.Ok? ==> fresh(r.value)
      ensures r.Ok? ==>
                var addrs := ActiveAddrs(operatorAddresses.elements, Now(clock).value);
                r.value.Length == |addrs| &&
                forall i :: 0 <= i < |addrs| ==> addrs[i] in operators && r.value[i] == operators[addrs[i]]
    {
      config.grid.NowIsEpochStart(clock);
      var now :- Now(clock);
      var addrs := operatorAddresses.GetActive(now);
      var ops := new Operator[|addrs|](_ => NO_OPERATOR);
      for i := 0 to |addrs|
        invariant forall k :: 0 <= k < i ==> ops[k] == Record(addrs[k])
      {
        ops[i] := Record(addrs[i]);
      }
      assert forall i :: 0 <= i < |addrs| ==> addrs[i] in operators by {
        ActiveAreMembers(operatorAddresses.elements, now);
      }
      r := Ok(ops);
    }

    method IsActiveOperator(clock: uint48, signer: Address) returns (r: Result<bool>)
      requires Valid()
      ensures r.Ok? <==> config.grid.Running(clock)
      ensures r.Ok? ==> (r.value <==> IsActive(View(), signer, Now(clock).value))
    {
      config.grid.NowIsEpochStart(clock);
      var now :- Now(clock);
      var active := operatorAddresses.WasActiveAt(now, signer);
      r := Ok(active);
    }
  }
}
