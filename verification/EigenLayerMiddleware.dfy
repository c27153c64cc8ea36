/** `EigenLayerMiddlewareV3`: the strategy whitelist and the two ways to compute an operator's stake. */
module EigenLayerMiddleware {
  import opened Evm
  import opened PauseableSet
  import opened Stakes
  import opened OperatorsRegistry
  import opened EpochGrid
  import W = Whitelists

  /** What the EigenLayer contracts answer at the time of a call. */
  datatype EigenLayer = EigenLayer(
    strategyIsWhitelistedForDeposit: Address -> bool,
    underlyingToken: Address -> Address,
    operatorShares: (Address, Address) -> uint256,
    sharesToUnderlying: (Address, uint256) -> uint256)
  {
    /** `getOperatorShares` answers strategy by strategy. */
    function GetOperatorShares(operator: Address, strategies: seq<Address>): (shares: seq<uint256>)
      ensures |shares| == |strategies|
      ensures forall i :: 0 <= i < |shares| ==> shares[i] == operatorShares(operator, strategies[i])
    {
      seq(|strategies|, i requires 0 <= i < |strategies| => operatorShares(operator, strategies[i]))
    }

    function Amount(operator: Address, strategy: Address): uint256 {
      sharesToUnderlying(strategy, operatorShares(operator, strategy))
    }
  }

  // ---------- The columns of getOperatorCollaterals ----------

  ghost function Tokens(el: EigenLayer, strategies: seq<Address>): (r: seq<Address>)
    ensures |r| == |strategies| && forall i :: 0 <= i < |r| ==> r[i] == el.underlyingToken(strategies[i])
  {
    seq(|strategies|, i requires 0 <= i < |strategies| => el.underlyingToken(strategies[i]))
  }

  ghost function Amounts(el: EigenLayer, operator: Address, strategies: seq<Address>): (r: seq<uint256>)
    ensures |r| == |strategies| && forall i :: 0 <= i < |r| ==> r[i] == el.Amount(operator, strategies[i])
    ensures forall i :: 0 <= i < |r| ==>
              r[i] == el.sharesToUnderlying(strategies[i], el.operatorShares(operator, strategies[i]))
  {
    seq(|strategies|, i requires 0 <= i < |strategies| => el.Amount(operator, strategies[i]))
  }

  /** The strategies with a positive amount beside them, in order. */
  ghost function Positive(strategies: seq<Address>, amounts: seq<nat>): seq<Address>
    requires |strategies| == |amounts|
  {
    if strategies == [] then []
    else
      var n := |strategies| - 1;
      Positive(strategies[..n], amounts[..n]) + if amounts[n] > 0 then [strategies[n]] else []
  }

  /** Each strategy counts by its own amount, and the order stays. */
  lemma PositiveOne(strategy: Address, amount: nat)
    ensures Positive([strategy], [amount]) == if amount == 0 then [] else [strategy]
  {
    assert [strategy][..0] == [];
  }

  lemma {:induction false} PositiveConcat(a: seq<Address>, m: seq<nat>, b: seq<Address>, n: seq<nat>)
    requires |a| == |m| && |b| == |n|
    ensures Positive(a + b, m + n) == Positive(a, m) + Positive(b, n)
  {
    if b == [] {
      assert a + b == a && m + n == m;
    } else {
      var k := |b| - 1;
      assert (a + b)[..|a| + k] == a + b[..k] && (m + n)[..|a| + k] == m + n[..k];
      PositiveConcat(a, m, b[..k], n[..k]);
    }
  }

  lemma PositiveStep(strategies: seq<Address>, amounts: seq<nat>, i: nat)
    requires |strategies| == |amounts| && i < |strategies|
    ensures Positive(strategies[..i + 1], amounts[..i + 1]) ==
            Positive(strategies[..i], amounts[..i]) + if amounts[i] > 0 then [strategies[i]] else []
  {
    assert strategies[..i + 1][..i] == strategies[..i] && amounts[..i + 1][..i] == amounts[..i];
  }

  // ---------- The stake of one collateral, summed along the whitelist ----------

  ghost function StakeAlong(el: EigenLayer, s: Entries, t: uint48, operator: Address, collateral: Address): nat {
    if s == [] then 0
    else
      var e := s[|s| - 1];
      StakeAlong(el, s[..|s| - 1], t, operator, collateral) +
      if ActiveAt(e.enabled, e.disabled, t) && el.underlyingToken(e.addr) == collateral
      then el.Amount(operator, e.addr) else 0
  }

  /** Both stake computations agree: summing along the whitelist gives the amounts of that token in
      the collateral columns. */
  lemma {:induction false} StakeAgrees(el: EigenLayer, s: Entries, t: uint48, operator: Address, collateral: Address)
    ensures var active := ActiveAddrs(s, t);
            StakeAlong(el, s, t, operator, collateral) ==
            SumFor(Tokens(el, active), Amounts(el, operator, active), collateral)
  {
    if s != [] {
      var front, e := s[..|s| - 1], s[|s| - 1];
      StakeAgrees(el, front, t, operator, collateral);
      var rest := ActiveAddrs(front, t);
      if ActiveAt(e.enabled, e.disabled, t) {
        assert ActiveAddrs(s, t) == rest + [e.addr];
        var n := |rest|;
        assert Tokens(el, rest + [e.addr])[..n] == Tokens(el, rest);
        assert Amounts(el, operator, rest + [e.addr])[..n] == Amounts(el, operator, rest);
      } else {
        assert ActiveAddrs(s, t) == rest;
      }
    }
  }

  lemma {:induction false} StakeGrows(el: EigenLayer, s: Entries, n: nat, t: uint48, operator: Address, collateral: Address)
    requires n <= |s|
    ensures StakeAlong(el, s[..n], t, operator, collateral) <= StakeAlong(el, s, t, operator, collateral)
    decreases |s|
  {
    if n == |s| {
      assert s[..n] == s;
    } else {
      assert s[..|s| - 1][..n] == s[..n];
      StakeGrows(el, s[..|s| - 1], n, t, operator, collateral);
    }
  }

  /** Over all its collaterals, an operator's stakes add up to the whole amounts column. */
  lemma StakesConserveTotal(el: EigenLayer, s: Entries, t: uint48, operator: Address, collaterals: set<Address>)
    requires forall a :: a in ActiveAddrs(s, t) ==> el.underlyingToken(a) in collaterals
    ensures var active := ActiveAddrs(s, t);
            SumOver(collaterals, Tokens(el, active), Amounts(el, operator, active)) ==
            Total(Amounts(el, operator, active))
  {
    var active := ActiveAddrs(s, t);
    forall i | 0 <= i < |active| ensures Tokens(el, active)[i] in collaterals {
      assert active[i] in active;
    }
    TokensConserveTotal(collaterals, Tokens(el, active), Amounts(el, operator, active));
  }

  // ---------- Whitelist administration ----------

  ghost function WhitelistCall(el: EigenLayer, s: Entries, now: Result<uint48>, strategy: Address): Result<Entries> {
    var _ :- Require(strategy != ZERO_ADDRESS, InvalidStrategyAddress);
    var _ :- Require(strategy !in Addrs(s), StrategyAlreadyWhitelisted);
    var _ :- Require(el.strategyIsWhitelistedForDeposit(strategy), UnauthorizedStrategy);
    var now :- now;
    RegisterIn(s, now, strategy)
  }

  ghost function PauseCall(s: Entries, now: Result<uint48>, strategy: Address): Result<Entries> {
    var _ :- Require(strategy in Addrs(s), UnauthorizedStrategy);
    var now :- now;
    var t :- CheckedSub48(now, 1);
    PauseIn(s, t, strategy)
  }

  ghost function UnpauseCall(s: Entries, now: Result<uint48>, period: uint48, strategy: Address): Result<Entries> {
    var _ :- Require(strategy in Addrs(s), UnauthorizedStrategy);
    var now :- now;
    UnpauseIn(s, now, period, strategy)
  }

  ghost function RemoveCall(s: Entries, now: Result<uint48>, period: uint48, strategy: Address): Result<Entries> {
    var _ :- Require(strategy in Addrs(s), UnauthorizedStrategy);
    var now :- now;
    var t :- CheckedSub48(now, 1);
    UnregisterIn(s, t, period, strategy)
  }

  /** When a strategy is accepted, and why not. */
  lemma WhitelistReasons(el: EigenLayer, s: Entries, now: uint48, strategy: Address)
    ensures var r := WhitelistCall(el, s, Ok(now), strategy);
            if strategy == 0 then r == Revert(InvalidStrategyAddress)
            else if strategy in Addrs(s) then r == Revert(StrategyAlreadyWhitelisted)
            else if !el.strategyIsWhitelistedForDeposit(strategy) then r == Revert(UnauthorizedStrategy)
            else r == Ok(s + [Entry(strategy, now, 0)])
  {
  }

  /** The owner's other calls are for members only, and otherwise go the way of the set. */
  lemma MemberReasons(s: Entries, now: uint48, period: uint48, strategy: Address)
    ensures strategy !in Addrs(s) ==>
              && PauseCall(s, Ok(now), strategy) == Revert(UnauthorizedStrategy)
              && UnpauseCall(s, Ok(now), period, strategy) == Revert(UnauthorizedStrategy)
              && RemoveCall(s, Ok(now), period, strategy) == Revert(UnauthorizedStrategy)
    ensures strategy in Addrs(s) ==>
              && PauseCall(s, Ok(now), strategy) == W.ChangeAt(s, W.Pause, strategy, now, period)
              && UnpauseCall(s, Ok(now), period, strategy) == W.ChangeAt(s, W.Unpause, strategy, now, period)
              && RemoveCall(s, Ok(now), period, strategy) == W.ChangeAt(s, W.Remove, strategy, now, period)
  {
  }

  // ---------- Whole histories of the whitelist ----------

  /** A call by the owner. The EigenLayer contracts may answer differently every time. */
  ghost function Step(g: Grid, s: Entries, call: W.Call<EigenLayer>): Result<Entries> {
    var now, strategy := g.Now(call.change.clock), call.change.member;
    match call.change.op
    case Add => WhitelistCall(call.answers, s, now, strategy)
    case Pause => PauseCall(s, now, strategy)
    case Unpause => UnpauseCall(s, now, g.duration, strategy)
    case Remove => RemoveCall(s, now, g.duration, strategy)
  }

  ghost function Steps(g: Grid): W.Steps<EigenLayer> {
    (s, call) => Step(g, s, call)
  }

  /** The checks before it aside, a call changes the set as asked. */
  lemma StepIsChange(g: Grid, s: Entries, call: W.Call<EigenLayer>)
    ensures Step(g, s, call).Ok? ==> Step(g, s, call) == W.ChangeSet(g, s, call.change)
    ensures call.change.member in Addrs(s) && !call.change.op.Add? ==>
              (Step(g, s, call).Ok? <==> W.ChangeSet(g, s, call.change).Ok?)
  {
  }

  lemma StepsGuard(g: Grid)
    ensures W.Guards(g, Steps(g))
  {
    forall s, call: W.Call<EigenLayer>
      ensures Steps(g)(s, call).Ok? ==> Steps(g)(s, call) == W.ChangeSet(g, s, call.change)
    {
      StepIsChange(g, s, call);
    }
  }

  /** `call` asks to unpause or to remove somebody whose last accepted change is a pause at `paused`.
      Both are accepted from the same moment on: the first second of the epoch after the pause
      (unpausing at once, if epochs last one second). If the pause lost its mark, neither ever is. */
  ghost predicate GateOf(g: Grid, s: Entries, call: W.Call<EigenLayer>, paused: uint48)
    requires g.Running(paused)
  {
    var marked, over := g.Tick(g.EpochOf(paused)) != 1, call.change.clock >= g.Tick(g.EpochOf(paused) + 1);
    Step(g, s, call).Ok? <==> marked && (over || (call.change.op.Unpause? && g.duration == 1))
  }

  lemma GateOfStep(g: Grid, s: Entries, call: W.Call<EigenLayer>, paused: uint48)
    requires g.Running(paused) && call.change.op in {W.Unpause, W.Remove}
    requires W.PauseGates(g, s, call.change.clock, call.change.member, paused)
    ensures GateOf(g, s, call, paused)
  {
    StepIsChange(g, s, call);
    assert call.change == W.Change(call.change.clock, call.change.op, call.change.member);
  }

  /** After any history whose last accepted call about a strategy paused it, its gates open as said. */
  lemma StrategyGates(g: Grid, calls: seq<W.Call<EigenLayer>>, call: W.Call<EigenLayer>, paused: uint48)
    requires W.CallsBefore(calls, call.change.clock) && call.change.op in {W.Unpause, W.Remove}
    requires W.LastChange(W.Accepted(Steps(g), calls), call.change.member) == W.Last(W.Pause, paused)
    ensures g.Running(paused) && GateOf(g, W.Run(Steps(g), calls), call, paused)
  {
    StepsGuard(g);
    W.RunIsReplay(g, Steps(g), calls);
    W.AcceptedBefore(Steps(g), calls, call.change.clock);
    W.GatesAfterPause(g, W.Accepted(Steps(g), calls), call.change.clock, call.change.member, paused);
    GateOfStep(g, W.Run(Steps(g), calls), call, paused);
  }

  /** After any history, and for any time, a strategy is active exactly when its accepted calls put it in
      force at that time; for the current epoch, if the registry starts at second 2 or later, exactly when
      the last of them whitelisted or unpaused it. */
  lemma StrategyActiveIff(g: Grid, calls: seq<W.Call<EigenLayer>>, clock: uint48, now: uint48, strategy: Address, t: uint48)
    requires W.CallsBefore(calls, clock) && g.Now(clock) == Ok(now)
    ensures Active(Table(W.Run(Steps(g), calls)), strategy, t) <==> W.InForce(g, W.Accepted(Steps(g), calls), strategy, t)
    ensures g.start >= 2 ==>
              var last := W.LastChange(W.Accepted(Steps(g), calls), strategy);
              Active(Table(W.Run(Steps(g), calls)), strategy, now) <==> last.Last? && last.op in {W.Add, W.Unpause}
  {
    StepsGuard(g);
    W.RunIsReplay(g, Steps(g), calls);
    W.AcceptedBefore(Steps(g), calls, clock);
    W.ActiveIffInForce(g, W.Accepted(Steps(g), calls), strategy, t);
    if g.start >= 2 {
      W.ActiveIffLastChange(g, W.Accepted(Steps(g), calls), clock, now, strategy);
    }
  }

  class Middleware {
    const operatorsRegistry: Registry
    const strategyWhitelist: AddressSet

    ghost predicate Valid()
      reads strategyWhitelist
    {
      strategyWhitelist.Valid()
    }

    constructor (registry: Registry)
      ensures Valid() && strategyWhitelist.elements == [] && operatorsRegistry == registry
      ensures fresh(strategyWhitelist)
    {
      operatorsRegistry := registry;
      strategyWhitelist := new AddressSet();
    }

    function Now(clock: uint48): Result<uint48> {
      operatorsRegistry.Now(clock)
    }

    function EpochDuration(): uint48 {
      operatorsRegistry.config.grid.duration
    }

    method WhitelistStrategy(el: EigenLayer, clock: uint48, strategy: Address) returns (r: Result<()>)
      requires Valid()
      modifies strategyWhitelist
      ensures Valid()
      ensures Follows(r, WhitelistCall(el, old(strategyWhitelist.elements), Now(clock), strategy),
                      old(strategyWhitelist.elements), strategyWhitelist.elements)
    {
      var _ :- Require(strategy != ZERO_ADDRESS, InvalidStrategyAddress);
      var known := strategyWhitelist.Contains(strategy);
      var _ :- Require(!known, StrategyAlreadyWhitelisted);
      var _ :- Require(el.strategyIsWhitelistedForDeposit(strategy), UnauthorizedStrategy);
      var now :- Now(clock);
      r := strategyWhitelist.Register(now, strategy);
    }

    method PauseStrategy(clock: uint48, strategy: Address) returns (r: Result<()>)
      requires Valid()
      modifies strategyWhitelist
      ensures Valid()
      ensures Follows(r, PauseCall(old(strategyWhitelist.elements), Now(clock), strategy),
                      old(strategyWhitelist.elements), strategyWhitelist.elements)
    {
      var known := strategyWhitelist.Contains(strategy);
      var _ :- Require(known, UnauthorizedStrategy);
      var now :- Now(clock);
      var t :- CheckedSub48(now, 1);
      r := strategyWhitelist.Pause(t, strategy);
    }

    method UnpauseStrategy(clock: uint48, strategy: Address) returns (r: Result<()>)
      requires Valid()
      modifies strategyWhitelist
      ensures Valid()
      ensures Follows(r, UnpauseCall(old(strategyWhitelist.elements), Now(clock), EpochDuration(), strategy),
                      old(strategyWhitelist.elements), strategyWhitelist.elements)
    {
      var known := strategyWhitelist.Contains(strategy);
      var _ :- Require(known, UnauthorizedStrategy);
      var now :- Now(clock);
      r := strategyWhitelist.Unpause(now, EpochDuration(), strategy);
    }

    method RemoveStrategy(clock: uint48, strategy: Address) returns (r: Result<()>)
      requires Valid()
      modifies strategyWhitelist
      ensures Valid()
      ensures Follows(r, RemoveCall(old(strategyWhitelist.elements), Now(clock), EpochDuration(), strategy),
                      old(strategyWhitelist.elements), strategyWhitelist.elements)
    {
      var known := strategyWhitelist.Contains(strategy);
      var _ :- Require(known, UnauthorizedStrategy);
      var now :- Now(clock);
      var t :- CheckedSub48(now, 1);
      r := strategyWhitelist.Unregister(t, EpochDuration(), strategy);
    }

    /** First pass: collect into an array that is long enough; second pass: resize it. */
    method GetActiveStrategiesAt(t: uint48) returns (strategies: seq<Address>)
      ensures strategies == ActiveAddrs(strategyWhitelist.elements, t)
    {
      var s := strategyWhitelist.elements;
      var activeCount := 0;
      var activeStrategies := new Address[|s|](_ => ZERO_ADDRESS);
      for i := 0 to |s|
        invariant 0 <= activeCount <= i
        invariant activeStrategies[..activeCount] == ActiveAddrs(s[..i], t)
      {
        assert s[..i + 1][..i] == s[..i];
        if ActiveAt(s[i].enabled, s[i].disabled, t) {
          activeStrategies[activeCount] := s[i].addr;
          activeCount := activeCount + 1;
        }
      }
      assert s[..|s|] == s;
      strategies := Resize(activeStrategies, activeCount);
    }

    method GetOperatorCollaterals(el: EigenLayer, clock: uint48, operator: Address)
      returns (r: Result<(seq<Address>, seq<uint256>)>)
      ensures Now(clock).Revert? ==> r == Revert(Now(clock).error)
      ensures Now(clock).Ok? ==>
                var active := ActiveAddrs(strategyWhitelist.elements, Now(clock).value);
                r == Ok((Tokens(el, active), Amounts(el, operator, active)))
    {
      var now :- Now(clock);
      var active := GetActiveStrategiesAt(now);
      var shares := el.GetOperatorShares(operator, active);
      var tokens := new Address[|active|](_ => ZERO_ADDRESS);
      var amounts := new uint256[|active|](_ => 0);
      for i := 0 to |active|
        invariant tokens[..i] == Tokens(el, active)[..i]
        invariant amounts[..i] == Amounts(el, operator, active)[..i]
      {
        tokens[i] := el.underlyingToken(active[i]);
        amounts[i] := el.sharesToUnderlying(active[i], shares[i]);
      }
      assert tokens[..] == Tokens(el, active);
      assert amounts[..] == Amounts(el, operator, active);
      return Ok((tokens[..], amounts[..]));
    }

    /** Reverts only when the sum leaves 256 bits, or when there is a strategy but no epoch. */
    method GetOperatorStake(el: EigenLayer, clock: uint48, operator: Address, collateral: Address)
      returns (r: Result<uint256>)
      ensures strategyWhitelist.elements == [] ==> r == Ok(0)
      ensures strategyWhitelist.elements != [] && Now(clock).Revert? ==> r == Revert(Now(clock).error)
      ensures Now(clock).Ok? ==>
                var active := ActiveAddrs(strategyWhitelist.elements, Now(clock).value);
                var sum := SumFor(Tokens(el, active), Amounts(el, operator, active), collateral);
                r == if sum <= MAX_UINT256 then Ok(sum) else Revert(ArithmeticPanic)
    {
      var s := strategyWhitelist.elements;
      ghost var t := if Now(clock).Ok? then Now(clock).value else 0;
      StakeAgrees(el, s, t, operator, collateral);
      var activeStake: uint256 := 0;
      for i := 0 to |s|
        invariant activeStake == StakeAlong(el, s[..i], t, operator, collateral)
        invariant i > 0 ==> Now(clock).Ok?
      {
        assert s[..i + 1][..i] == s[..i];
        StakeGrows(el, s, i + 1, t, operator, collateral);
        var now :- Now(clock);
        if !ActiveAt(s[i].enabled, s[i].disabled, now) {
          continue;
        }
        if el.underlyingToken(s[i].addr) != collateral {
          continue;
        }
        var shares := el.GetOperatorShares(operator, [s[i].addr]);
        activeStake :- CheckedAdd256(activeStake, el.sharesToUnderlying(s[i].addr, shares[0]));
      }
      assert s[..|s|] == s;
      return Ok(activeStake);
    }

    method GetOperatorRestakedStrategies(el: EigenLayer, clock: uint48, operator: Address)
      returns (r: Result<seq<Address>>)
      ensures Now(clock).Revert? ==> r == Revert(Now(clock).error)
      ensures Now(clock).Ok? ==>
                var active := ActiveAddrs(strategyWhitelist.elements, Now(clock).value);
                r == Ok(Positive(active, Amounts(el, operator, active)))
    {
      var now :- Now(clock);
      var active := GetActiveStrategiesAt(now);
      var restaked := SelectRestaked(el, operator, active);
      return Ok(restaked);
    }

    /** The two passes over the active strategies. */
    method SelectRestaked(el: EigenLayer, operator: Address, active: seq<Address>) returns (r: seq<Address>)
      ensures r == Positive(active, Amounts(el, operator, active))
    {
      ghost var amounts := Amounts(el, operator, active);
      var restaked := new Address[|active|](_ => ZERO_ADDRESS);
      var shares := el.GetOperatorShares(operator, active);
      var restakedCount := 0;
      for i := 0 to |active|
        invariant 0 <= restakedCount <= i
        invariant restaked[..restakedCount] == Positive(active[..i], amounts[..i])
      {
        PositiveStep(active, amounts, i);
        if el.sharesToUnderlying(active[i], shares[i]) > 0 {
          restaked[restakedCount] := active[i];
          restakedCount := restakedCount + 1;
        }
      }
      assert active[..|active|] == active && amounts[..|active|] == amounts;
      r := Resize(restaked, restakedCount);
    }

    method IsStrategyActive(clock: uint48, strategy: Address) returns (r: Result<bool>)
      requires Valid()
      ensures Now(clock).Revert? ==> r == Revert(Now(clock).error)
      ensures Now(clock).Ok? ==> r == Ok(Active(Table(strategyWhitelist.elements), strategy, Now(clock).value))
    {
      var now :- Now(clock);
      var active := strategyWhitelist.WasActiveAt(now, strategy);
      return Ok(active);
    }

    method GetWhitelistedStrategies() returns (strategies: seq<Address>)
      ensures strategies == AllAddrs(strategyWhitelist.elements)
    {
      var s := strategyWhitelist.elements;
      var all := new Address[|s|](_ => ZERO_ADDRESS);
      for i := 0 to |s|
        invariant all[..i] == AllAddrs(s)[..i]
      {
        all[i] := s[i].addr;
      }
      strategies := all[..];
    }
  }
}
