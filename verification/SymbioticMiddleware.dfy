/** `SymbioticMiddlewareV1`: the vault whitelist and the stake of the first matching vault. */
module SymbioticMiddleware {
  import opened Evm
  import opened PauseableSet
  import opened Stakes
  import opened OperatorsRegistry
  import opened EpochGrid
  import W = Whitelists

  /** What the Symbiotic contracts answer at the time of a call; a vault's delegator is folded into
      the vault. */
  datatype Symbiotic = Symbiotic(
    isEntity: Address -> bool,
    isInitialized: Address -> bool,
    collateral: Address -> Address,
    stake: (Address, Address) -> uint256,
    stakeAt: (Address, Address, uint48) -> uint256)

  // ---------- The columns of getOperatorCollaterals ----------

  ghost function Tokens(sym: Symbiotic, s: Entries): (r: seq<Address>)
    ensures |r| == |s| && forall i :: 0 <= i < |s| ==> r[i] == sym.collateral(s[i].addr)
  {
    seq<Address>(|s|, i requires 0 <= i < |s| => sym.collateral(s[i].addr))
  }

  /** An inactive vault keeps its row, with nothing in it. */
  ghost function Row(sym: Symbiotic, e: Entry, now: uint48, operator: Address): uint256 {
    if ActiveAt(e.enabled, e.disabled, now) then sym.stake(e.addr, operator) else 0
  }

  ghost function Amounts(sym: Symbiotic, s: Entries, now: uint48, operator: Address): (r: seq<uint256>)
    ensures |r| == |s| && forall i :: 0 <= i < |s| ==> r[i] == Row(sym, s[i], now, operator)
  {
    seq<uint256>(|s|, i requires 0 <= i < |s| => Row(sym, s[i], now, operator))
  }

  // ---------- First match ----------

  ghost predicate Matches(sym: Symbiotic, e: Entry, t: uint48, token: Address) {
    ActiveAt(e.enabled, e.disabled, t) && sym.collateral(e.addr) == token
  }

  /** The first active vault with that token, or the length. */
  ghost function FirstMatch(sym: Symbiotic, s: Entries, t: uint48, token: Address): (j: nat)
    ensures j <= |s|
    ensures forall i :: 0 <= i < j ==> !Matches(sym, s[i], t, token)
    ensures j < |s| ==> Matches(sym, s[j], t, token)
  {
    if s == [] || Matches(sym, s[0], t, token) then 0 else 1 + FirstMatch(sym, s[1..], t, token)
  }

  ghost function StakeAt(sym: Symbiotic, s: Entries, t: uint48, operator: Address, token: Address): uint256 {
    var j := FirstMatch(sym, s, t, token);
    if j == |s| || s[j].addr == ZERO_ADDRESS then 0 else sym.stakeAt(s[j].addr, operator, t)
  }

  /** A vault's stake reads the same with and without the timestamp. */
  ghost predicate Current(sym: Symbiotic, vault: Address, operator: Address, t: uint48) {
    sym.stake(vault, operator) == sym.stakeAt(vault, operator, t)
  }

  /** Against the columns of `getOperatorCollaterals`: the stake is the amount in the row of the
      first active vault with the token, exactly if that vault's stake is current; with no such vault
      it is nothing. A current stake is at most the sum of the token's rows, and equals it exactly
      when every other row of that token is empty. */
  ghost predicate FirstRow(sym: Symbiotic, s: Entries, now: uint48, operator: Address, token: Address) {
    var tokens, amounts := Tokens(sym, s), Amounts(sym, s, now, operator);
    var stake, sum := StakeAt(sym, s, now, operator, token), SumFor(tokens, amounts, token);
    var j := FirstMatch(sym, s, now, token);
    if j == |s| then stake == 0 == sum
    else
      && tokens[j] == token
      && (stake == amounts[j] <==> Current(sym, s[j].addr, operator, now))
      && (Current(sym, s[j].addr, operator, now) ==>
            && stake <= sum
            && (stake == sum <==>
                forall k :: 0 <= k < |s| && k != j && tokens[k] == token ==> amounts[k] == 0))
  }

  lemma StakeIsFirstRow(sym: Symbiotic, s: Entries, now: uint48, operator: Address, token: Address)
    requires ZERO_ADDRESS !in Addrs(s)
    ensures FirstRow(sym, s, now, operator, token)
  {
    var tokens, amounts := Tokens(sym, s), Amounts(sym, s, now, operator);
    var j := FirstMatch(sym, s, now, token);
    if j < |s| {
      assert s[j].addr in Addrs(s);
      OneOfSum(tokens, amounts, j);
    } else {
      ZeroSumIff(tokens, amounts, token);
    }
  }

  /** At most one active vault holds the token. */
  ghost predicate SoleMatch(sym: Symbiotic, s: Entries, now: uint48, token: Address) {
    forall i, j :: 0 <= i < j < |s| ==> !Matches(sym, s[i], now, token) || !Matches(sym, s[j], now, token)
  }

  ghost predicate MatchesCurrent(sym: Symbiotic, s: Entries, now: uint48, operator: Address, token: Address) {
    forall i :: 0 <= i < |s| && Matches(sym, s[i], now, token) ==> Current(sym, s[i].addr, operator, now)
  }

  /** With a single active vault for the token the two computations agree. */
  lemma SoleVaultStake(sym: Symbiotic, s: Entries, now: uint48, operator: Address, token: Address)
    requires ZERO_ADDRESS !in Addrs(s)
    requires SoleMatch(sym, s, now, token) && MatchesCurrent(sym, s, now, operator, token)
    ensures StakeAt(sym, s, now, operator, token)
         == SumFor(Tokens(sym, s), Amounts(sym, s, now, operator), token)
  {
    StakeIsFirstRow(sym, s, now, operator, token);
    var j := FirstMatch(sym, s, now, token);
    forall k | 0 <= k < |s| && k != j && Tokens(sym, s)[k] == token
      ensures Amounts(sym, s, now, operator)[k] == 0
    {
      assert !Matches(sym, s[k], now, token);
    }
  }

  // ---------- Whitelist administration ----------

  ghost function WhitelistCall(sym: Symbiotic, s: Entries, now: Result<uint48>, vault: Address): Result<Entries> {
    var _ :- Require(sym.isEntity(vault), NotVault);
    var _ :- Require(sym.isInitialized(vault), VaultNotInitialized);
    var _ :- Require(vault !in Addrs(s), VaultAlreadyWhitelisted);
    var now :- now;
    RegisterIn(s, now, vault)
  }

  ghost function PauseCall(s: Entries, now: Result<uint48>, vault: Address): Result<Entries> {
    var now :- now;
    var t :- CheckedSub48(now, 1);
    PauseIn(s, t, vault)
  }

  ghost function UnpauseCall(s: Entries, now: Result<uint48>, period: uint48, vault: Address): Result<Entries> {
    var now :- now;
    UnpauseIn(s, now, period, vault)
  }

  ghost function RemoveCall(s: Entries, now: Result<uint48>, period: uint48, vault: Address): Result<Entries> {
    var now :- now;
    var t :- CheckedSub48(now, 1);
    UnregisterIn(s, t, period, vault)
  }

  /** When a vault is accepted, and why not. */
  lemma WhitelistReasons(sym: Symbiotic, s: Entries, now: uint48, vault: Address)
    ensures var r := WhitelistCall(sym, s, Ok(now), vault);
            if !sym.isEntity(vault) then r == Revert(NotVault)
            else if !sym.isInitialized(vault) then r == Revert(VaultNotInitialized)
            else if vault in Addrs(s) then r == Revert(VaultAlreadyWhitelisted)
            else r == Ok(s + [Entry(vault, now, 0)])
  {
  }

  /** The owner's other calls go the way of the set. */
  lemma MemberReasons(s: Entries, now: uint48, period: uint48, vault: Address)
    ensures PauseCall(s, Ok(now), vault) == W.ChangeAt(s, W.Pause, vault, now, period)
    ensures UnpauseCall(s, Ok(now), period, vault) == W.ChangeAt(s, W.Unpause, vault, now, period)
    ensures RemoveCall(s, Ok(now), period, vault) == W.ChangeAt(s, W.Remove, vault, now, period)
  {
  }

  // ---------- Whole histories of the whitelist ----------

  /** A call by the owner. The Symbiotic contracts may answer differently every time. */
  ghost function Step(g: Grid, s: Entries, call: W.Call<Symbiotic>): Result<Entries> {
    var now, vault := g.Now(call.change.clock), call.change.member;
    match call.change.op
    case Add => WhitelistCall(call.answers, s, now, vault)
    case Pause => PauseCall(s, now, vault)
    case Unpause => UnpauseCall(s, now, g.duration, vault)
    case Remove => RemoveCall(s, now, g.duration, vault)
  }

  ghost function Steps(g: Grid): W.Steps<Symbiotic> {
    (s, call) => Step(g, s, call)
  }

  /** The checks before it aside, a call changes the set as asked. */
  lemma StepIsChange(g: Grid, s: Entries, call: W.Call<Symbiotic>)
    ensures Step(g, s, call).Ok? ==> Step(g, s, call) == W.ChangeSet(g, s, call.change)
    ensures call.change.member in Addrs(s) && !call.change.op.Add? ==>
              (Step(g, s, call).Ok? <==> W.ChangeSet(g, s, call.change).Ok?)
  {
  }

  lemma StepsGuard(g: Grid)
    ensures W.Guards(g, Steps(g))
  {
    forall s, call: W.Call<Symbiotic>
      ensures Steps(g)(s, call).Ok? ==> Steps(g)(s, call) == W.ChangeSet(g, s, call.change)
    {
      StepIsChange(g, s, call);
    }
  }

  /** `call` asks to unpause or to remove somebody whose last accepted change is a pause at `paused`.
      Both are accepted from the same moment on: the first second of the epoch after the pause
      (unpausing at once, if epochs last one second). If the pause lost its mark, neither ever is. */
  ghost predicate GateOf(g: Grid, s: Entries, call: W.Call<Symbiotic>, paused: uint48)
    requires g.Running(paused)
  {
    var marked, over := g.Tick(g.EpochOf(paused)) != 1, call.change.clock >= g.Tick(g.EpochOf(paused) + 1);
    Step(g, s, call).Ok? <==> marked && (over || (call.change.op.Unpause? && g.duration == 1))
  }

  lemma GateOfStep(g: Grid, s: Entries, call: W.Call<Symbiotic>, paused: uint48)
    requires g.Running(paused) && call.change.op in {W.Unpause, W.Remove}
    requires W.PauseGates(g, s, call.change.clock, call.change.member, paused)
    ensures GateOf(g, s, call, paused)
  {
    StepIsChange(g, s, call);
    assert call.change == W.Change(call.change.clock, call.change.op, call.change.member);
  }

  /** After any history whose last accepted call about a vault paused it, its gates open as said. */
  lemma VaultGates(g: Grid, calls: seq<W.Call<Symbiotic>>, call: W.Call<Symbiotic>, paused: uint48)
    requires W.CallsBefore(calls, call.change.clock) && call.change.op in {W.Unpause, W.Remove}
    requires W.LastChange(W.Accepted(Steps(g), calls), call.change.member) == W.Last(W.Pause, paused)
    ensures g.Running(paused) && GateOf(g, W.Run(Steps(g), calls), call, paused)
  {
    StepsGuard(g);
    W.RunIsReplay(g, Steps(g), calls);
    W.AcceptedBefore(Steps(g), calls, call.change.clock);
    W.GatesAfterPause(g, W.Accepted(Steps(g), calls), call.change.clock, call.change.member, paused);
    GateOfStep(g, W.Run(Steps(g), calls), call, paused);
  }

  /** After any history, and for any time, a vault is active exactly when its accepted calls put it in
      force at that time; for the current epoch, if the registry starts at second 2 or later, exactly when
      the last of them whitelisted or unpaused it. */
  lemma VaultActiveIff(g: Grid, calls: seq<W.Call<Symbiotic>>, clock: uint48, now: uint48, vault: Address, t: uint48)
    requires W.CallsBefore(calls, clock) && g.Now(clock) == Ok(now)
    ensures Active(Table(W.Run(Steps(g), calls)), vault, t) <==> W.InForce(g, W.Accepted(Steps(g), calls), vault, t)
    ensures g.start >= 2 ==>
              var last := W.LastChange(W.Accepted(Steps(g), calls), vault);
              Active(Table(W.Run(Steps(g), calls)), vault, now) <==> last.Last? && last.op in {W.Add, W.Unpause}
  {
    StepsGuard(g);
    W.RunIsReplay(g, Steps(g), calls);
    W.AcceptedBefore(Steps(g), calls, clock);
    W.ActiveIffInForce(g, W.Accepted(Steps(g), calls), vault, t);
    if g.start >= 2 {
      W.ActiveIffLastChange(g, W.Accepted(Steps(g), calls), clock, now, vault);
    }
  }

  /** The zero address is no registered vault, whenever that is asked. */
  ghost predicate NeverZero(calls: seq<W.Call<Symbiotic>>) {
    forall i :: 0 <= i < |calls| ==> !calls[i].answers.isEntity(ZERO_ADDRESS)
  }

  /** After any history the whitelist names no vault twice, and never the zero address. */
  lemma VaultsWellFormed(g: Grid, calls: seq<W.Call<Symbiotic>>, clock: uint48)
    requires W.CallsBefore(calls, clock) && NeverZero(calls)
    ensures Distinct(W.Run(Steps(g), calls)) && ZERO_ADDRESS !in Addrs(W.Run(Steps(g), calls))
  {
    var log := W.Accepted(Steps(g), calls);
    StepsGuard(g);
    W.RunIsReplay(g, Steps(g), calls);
    W.AcceptedBefore(Steps(g), calls, clock);
    W.ReplayEntries(g, log);
    if ZERO_ADDRESS in Addrs(W.Run(Steps(g), calls)) {
      W.MembersWereAdded(g, log, ZERO_ADDRESS);
      var i :| 0 <= i < |log| && log[i].op.Add? && log[i].member == ZERO_ADDRESS;
      W.AcceptedWasCalled(Steps(g), calls, log[i]);
      assert false;
    }
  }

  /** After any history of the whitelist: the stake is the first row's amount, and with a single active
      vault for the token it is the sum of the token's rows. */
  lemma ReachableStake(g: Grid, calls: seq<W.Call<Symbiotic>>, clock: uint48, now: uint48,
                       sym: Symbiotic, operator: Address, token: Address)
    requires W.CallsBefore(calls, clock) && NeverZero(calls)
    ensures var s := W.Run(Steps(g), calls);
            && FirstRow(sym, s, now, operator, token)
            && (SoleMatch(sym, s, now, token) && MatchesCurrent(sym, s, now, operator, token) ==>
                  StakeAt(sym, s, now, operator, token) == SumFor(Tokens(sym, s), Amounts(sym, s, now, operator), token))
  {
    var s := W.Run(Steps(g), calls);
    VaultsWellFormed(g, calls, clock);
    StakeIsFirstRow(sym, s, now, operator, token);
    if SoleMatch(sym, s, now, token) && MatchesCurrent(sym, s, now, operator, token) {
      SoleVaultStake(sym, s, now, operator, token);
    }
  }

  /** The vault holds the token and was in force at `t`, as its accepted calls tell. */
  ghost predicate HeldAt(g: Grid, calls: seq<W.Call<Symbiotic>>, sym: Symbiotic, token: Address, t: uint48, vault: Address) {
    sym.collateral(vault) == token && W.InForce(g, W.Accepted(Steps(g), calls), vault, t)
  }

  /** The first listed vault that held the token at `t` is number `j`; the length stands for none. */
  ghost predicate FirstHeld(g: Grid, calls: seq<W.Call<Symbiotic>>, sym: Symbiotic, token: Address, t: uint48, j: nat) {
    var s := W.Run(Steps(g), calls);
    && j <= |s| && (forall i :: 0 <= i < j ==> !HeldAt(g, calls, sym, token, t, s[i].addr))
    && (j < |s| ==> HeldAt(g, calls, sym, token, t, s[j].addr))
  }

  /** After any history of the whitelist, the stake at any time, also in the past: that of the first
      listed vault that held the token then, and nothing if there was none. */
  lemma ReachableStakeAt(g: Grid, calls: seq<W.Call<Symbiotic>>, clock: uint48, t: uint48,
                         sym: Symbiotic, operator: Address, token: Address, j: nat)
    requires W.CallsBefore(calls, clock) && NeverZero(calls) && FirstHeld(g, calls, sym, token, t, j)
    ensures var s := W.Run(Steps(g), calls);
            StakeAt(sym, s, t, operator, token) == if j == |s| then 0 else sym.stakeAt(s[j].addr, operator, t)
  {
    var s := W.Run(Steps(g), calls);
    VaultsWellFormed(g, calls, clock);
    StepsGuard(g);
    W.RunIsReplay(g, Steps(g), calls);
    forall i | 0 <= i < |s| ensures Matches(sym, s[i], t, token) <==> HeldAt(g, calls, sym, token, t, s[i].addr) {
      W.ActiveIffInForce(g, W.Accepted(Steps(g), calls), s[i].addr, t);
      TableAt(s, i);
    }
    FirstOfMatches(sym, s, t, token, j);
    if j < |s| {
      assert s[j].addr in Addrs(s);
    }
  }

  lemma FirstOfMatches(sym: Symbiotic, s: Entries, t: uint48, token: Address, j: nat)
    requires j <= |s| && forall i :: 0 <= i < j ==> !Matches(sym, s[i], t, token)
    requires j < |s| ==> Matches(sym, s[j], t, token)
    ensures FirstMatch(sym, s, t, token) == j
  {
    var first := FirstMatch(sym, s, t, token);
    assert !(first < j) && !(j < first);
  }

  class Middleware {
    const operatorsRegistry: Registry
    const vaultWhitelist: AddressSet

    ghost predicate Valid()
      reads vaultWhitelist
    {
      vaultWhitelist.Valid()
    }

    constructor (registry: Registry)
      ensures Valid() && vaultWhitelist.elements == [] && operatorsRegistry == registry
      ensures fresh(vaultWhitelist)
    {
      operatorsRegistry := registry;
      vaultWhitelist := new AddressSet();
    }

    function Now(clock: uint48): Result<uint48> {
      operatorsRegistry.Now(clock)
    }

    function EpochDuration(): uint48 {
      operatorsRegistry.config.grid.duration
    }

    method WhitelistVault(sym: Symbiotic, clock: uint48, vault: Address) returns (r: Result<()>)
      requires Valid()
      modifies vaultWhitelist
      ensures Valid()
      ensures Follows(r, WhitelistCall(sym, old(vaultWhitelist.elements), Now(clock), vault),
                      old(vaultWhitelist.elements), vaultWhitelist.elements)
    {
      var _ :- Require(sym.isEntity(vault), NotVault);
      var _ :- Require(sym.isInitialized(vault), VaultNotInitialized);
      var known := vaultWhitelist.Contains(vault);
      var _ :- Require(!known, VaultAlreadyWhitelisted);
      var now :- Now(clock);
      r := vaultWhitelist.Register(now, vault);
    }

    method PauseVault(clock: uint48, vault: Address) returns (r: Result<()>)
      requires Valid()
      modifies vaultWhitelist
      ensures Valid()
      ensures Follows(r, PauseCall(old(vaultWhitelist.elements), Now(clock), vault),
                      old(vaultWhitelist.elements), vaultWhitelist.elements)
    {
      var now :- Now(clock);
      var t :- CheckedSub48(now, 1);
      r := vaultWhitelist.Pause(t, vault);
    }

    method UnpauseVault(clock: uint48, vault: Address) returns (r: Result<()>)
      requires Valid()
      modifies vaultWhitelist
      ensures Valid()
      ensures Follows(r, UnpauseCall(old(vaultWhitelist.elements), Now(clock), EpochDuration(), vault),
                      old(vaultWhitelist.elements), vaultWhitelist.elements)
    {
      var now :- Now(clock);
      r := vaultWhitelist.Unpause(now, EpochDuration(), vault);
    }

    method RemoveVault(clock: uint48, vault: Address) returns (r: Result<()>)
      requires Valid()
      modifies vaultWhitelist
      ensures Valid()
      ensures Follows(r, RemoveCall(old(vaultWhitelist.elements), Now(clock), EpochDuration(), vault),
                      old(vaultWhitelist.elements), vaultWhitelist.elements)
    {
      var now :- Now(clock);
      var t :- CheckedSub48(now, 1);
      r := vaultWhitelist.Unregister(t, EpochDuration(), vault);
    }

    method GetOperatorStakeAt(sym: Symbiotic, operator: Address, collateral: Address, t: uint48)
      returns (stake: uint256)
      ensures stake == StakeAt(sym, vaultWhitelist.elements, t, operator, collateral)
    {
      var s := vaultWhitelist.elements;
      var vault := ZERO_ADDRESS;
      var i := 0;
      while i < |s|
        invariant 0 <= i <= |s|
        invariant vault == ZERO_ADDRESS
        invariant forall k :: 0 <= k < i ==> !Matches(sym, s[k], t, collateral)
      {
        if !ActiveAt(s[i].enabled, s[i].disabled, t) {
          i := i + 1;
          continue;
        }
        if sym.collateral(s[i].addr) == collateral {
          vault := s[i].addr;
          break;
        }
        i := i + 1;
      }
      assert FirstMatch(sym, s, t, collateral) == i;
      if vault == ZERO_ADDRESS {
        return 0;
      }
      return sym.stakeAt(vault, operator, t);
    }

    method GetOperatorStake(sym: Symbiotic, clock: uint48, operator: Address, collateral: Address)
      returns (r: Result<uint256>)
      ensures Now(clock).Revert? ==> r == Revert(Now(clock).error)
      ensures Now(clock).Ok? ==>
                r == Ok(StakeAt(sym, vaultWhitelist.elements, Now(clock).value, operator, collateral))
    {
      var now :- Now(clock);
      var stake := GetOperatorStakeAt(sym, operator, collateral, now);
      return Ok(stake);
    }

    method GetOperatorCollaterals(sym: Symbiotic, clock: uint48, operator: Address)
      returns (r: Result<(seq<Address>, seq<uint256>)>)
      ensures vaultWhitelist.elements == [] ==> r == Ok(([], []))
      ensures vaultWhitelist.elements != [] && Now(clock).Revert? ==> r == Revert(Now(clock).error)
      ensures Now(clock).Ok? ==>
                var s := vaultWhitelist.elements;
                r == Ok((Tokens(sym, s), Amounts(sym, s, Now(clock).value, operator)))
    {
      var s := vaultWhitelist.elements;
      ghost var t := if Now(clock).Ok? then Now(clock).value else 0;
      var tokens := new Address[|s|](_ => ZERO_ADDRESS);
      var amounts := new uint256[|s|](_ => 0);
      for i := 0 to |s|
        invariant i > 0 ==> Now(clock).Ok?
        invariant tokens[..i] == Tokens(sym, s)[..i]
        invariant amounts[..i] == Amounts(sym, s, t, operator)[..i]
        invariant forall k :: i <= k < |s| ==> amounts[k] == 0
      {
        var now :- Now(clock);
        if !ActiveAt(s[i].enabled, s[i].disabled, now) {
          tokens[i] := sym.collateral(s[i].addr);
          continue;
        }
        tokens[i] := sym.collateral(s[i].addr);
        amounts[i] := sym.stake(s[i].addr, operator);
      }
      assert tokens[..] == Tokens(sym, s);
      assert amounts[..] == Amounts(sym, s, t, operator);
      return Ok((tokens[..], amounts[..]));
    }

    method GetActiveWhitelistedVaults(clock: uint48) returns (r: Result<seq<Address>>)
      ensures vaultWhitelist.elements == [] ==> r == Ok([])
      ensures vaultWhitelist.elements != [] && Now(clock).Revert? ==> r == Revert(Now(clock).error)
      ensures Now(clock).Ok? ==> r == Ok(ActiveAddrs(vaultWhitelist.elements, Now(clock).value))
    {
      var s := vaultWhitelist.elements;
      ghost var t := if Now(clock).Ok? then Now(clock).value else 0;
      var tempVaults := new Address[|s|](_ => ZERO_ADDRESS);
      var activeCount := 0;
      for i := 0 to |s|
        invariant i > 0 ==> Now(clock).Ok?
        invariant 0 <= activeCount <= i
        invariant tempVaults[..activeCount] == ActiveAddrs(s[..i], t)
      {
        assert s[..i + 1][..i] == s[..i];
        var now :- Now(clock);
        if ActiveAt(s[i].enabled, s[i].disabled, now) {
          tempVaults[activeCount] := s[i].addr;
          activeCount := activeCount + 1;
        }
      }
      assert s[..|s|] == s;
      var active := Resize(tempVaults, activeCount);
      return Ok(active);
    }

    method IsVaultActive(clock: uint48, vault: Address) returns (r: Result<bool>)
      requires Valid()
      ensures Now(clock).Revert? ==> r == Revert(Now(clock).error)
      ensures Now(clock).Ok? ==> r == Ok(Active(Table(vaultWhitelist.elements), vault, Now(clock).value))
    {
      var now :- Now(clock);
      var active := vaultWhitelist.WasActiveAt(now, vault);
      return Ok(active);
    }

    method GetWhitelistedVaults() returns (vaults: seq<Address>)
      ensures vaults == AllAddrs(vaultWhitelist.elements)
    {
      var s := vaultWhitelist.elements;
      var all := new Address[|s|](_ => ZERO_ADDRESS);
      for i := 0 to |s|
        invariant all[..i] == AllAddrs(s)[..i]
      {
        all[i] := s[i].addr;
      }
      vaults := all[..];
    }
  }
}
