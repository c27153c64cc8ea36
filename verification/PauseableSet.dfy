/** The `PauseableEnumerableSet.AddressSet` of the Symbiotic middleware SDK. The library itself is
    not part of the repository; its behaviour is an assumption, made explicit by this module and
    taken from the guards, errors and timing that the repository's contracts and tests rely on.

    The first half states the operations on a plain sequence of entries, searched from the front.
    The second half is the storage structure: the array with a one-based position table, updated in
    place, which is proved to behave like the sequence. */
module PauseableSet {
  import opened Evm

  datatype Entry = Entry(addr: Address, enabled: uint48, disabled: uint48)

  type Entries = seq<Entry>

  // ---------- A single entry ----------

  predicate ActiveAt(enabled: uint48, disabled: uint48, t: uint48) {
    enabled != 0 && enabled <= t && (disabled == 0 || disabled >= t)
  }

  /** The immutable period of a paused entry has passed. */
  predicate Expired(e: Entry, t: nat, period: nat) {
    e.disabled != 0 && e.disabled + period <= t
  }

  /** Computing the end of the entry's immutable period leaves the 48-bit range. */
  predicate Overflows(e: Entry, period: nat) {
    e.disabled != 0 && e.disabled + period > MAX_UINT48
  }

  /** The guard shared by unpausing and unregistering; only the error for an entry that is not
      paused differs. */
  function Gate(e: Entry, t: uint48, period: uint48, notPaused: Error): (r: Result<()>)
    ensures r.Ok? <==> Expired(e, t, period)
    ensures r.Ok? <==> e.disabled > 0 && t - e.disabled >= period
    ensures r == Revert(ArithmeticPanic) <== Overflows(e, period)
  {
    var _ :- Require(e.disabled != 0, notPaused);
    var end :- CheckedAdd48(e.disabled, period);
    var _ :- Require(end <= t, ImmutablePeriodNotPassed);
    Ok(())
  }

  // ---------- The operations on a sequence of entries ----------

  ghost function Addrs(s: Entries): set<Address> {
    set i | 0 <= i < |s| :: s[i].addr
  }

  ghost predicate Distinct(s: Entries) {
    forall i, j :: 0 <= i < j < |s| ==> s[i].addr != s[j].addr
  }

  /** The first index holding `a`, or the length. */
  ghost function IndexOf(s: Entries, a: Address): (i: nat)
    ensures i <= |s|
    ensures i < |s| <==> a in Addrs(s)
    ensures i < |s| ==> s[i].addr == a
    ensures forall j :: 0 <= j < i ==> s[j].addr != a
  {
    if s == [] then 0
    else if s[0].addr == a then 0
    else
      assert forall j :: 0 < j < |s| ==> s[j] == s[1..][j - 1];
      1 + IndexOf(s[1..], a)
  }

  ghost function Locate(s: Entries, a: Address): Result<nat> {
    if a in Addrs(s) then Ok(IndexOf(s, a)) else Revert(NotRegistered)
  }

  ghost function RegisterIn(s: Entries, t: uint48, a: Address): Result<Entries> {
    if a in Addrs(s) then Revert(AlreadyRegistered) else Ok(s + [Entry(a, t, 0)])
  }

  ghost function PauseIn(s: Entries, t: uint48, a: Address): Result<Entries> {
    var i :- Locate(s, a);
    var _ :- Require(s[i].disabled == 0, NotEnabled);
    Ok(s[i := s[i].(disabled := t)])
  }

  ghost function UnpauseIn(s: Entries, t: uint48, period: uint48, a: Address): Result<Entries> {
    var i :- Locate(s, a);
    var _ :- Gate(s[i], t, period, AlreadyEnabled);
    Ok(s[i := Entry(a, t, 0)])
  }

  ghost function UnregisterIn(s: Entries, t: uint48, period: uint48, a: Address): Result<Entries> {
    var i :- Locate(s, a);
    var _ :- Gate(s[i], t, period, Enabled);
    Ok(SwapRemove(s, i))
  }

  /** The last entry takes the place of the removed one. */
  ghost function SwapRemove(s: Entries, i: nat): (r: Entries)
    requires i < |s|
    ensures |r| == |s| - 1
  {
    if i == |s| - 1 then s[..i] else s[..|s| - 1][i := s[|s| - 1]]
  }

  /** The addresses active at `t`, in order. */
  ghost function ActiveAddrs(s: Entries, t: uint48): seq<Address> {
    if s == [] then []
    else ActiveAddrs(s[..|s| - 1], t) +
         if ActiveAt(s[|s| - 1].enabled, s[|s| - 1].disabled, t) then [s[|s| - 1].addr] else []
  }

  // ---------- What the operations mean for the table of entries by address ----------

  ghost function Table(s: Entries): (table: map<Address, Entry>)
    ensures table.Keys == Addrs(s)
    ensures forall a :: a in table ==> table[a].addr == a
  {
    map a | a in Addrs(s) :: s[IndexOf(s, a)]
  }

  lemma TableAt(s: Entries, i: nat)
    requires Distinct(s) && i < |s|
    ensures s[i].addr in Table(s) && Table(s)[s[i].addr] == s[i]
    ensures IndexOf(s, s[i].addr) == i
  {
  }

  lemma TableIs(s: Entries, table: map<Address, Entry>)
    requires table.Keys == Addrs(s)
    requires forall i :: 0 <= i < |s| ==> s[i].addr in table && table[s[i].addr] == s[i]
    ensures Table(s) == table
  {
  }

  lemma AppendAddrs(s: Entries, e: Entry)
    ensures Addrs(s + [e]) == Addrs(s) + {e.addr}
  {
    var r := s + [e];
    assert r[|s|] == e && forall i :: 0 <= i < |s| ==> r[i] == s[i];
  }

  lemma AppendTable(s: Entries, e: Entry)
    requires Distinct(s) && e.addr !in Addrs(s)
    ensures Distinct(s + [e])
    ensures Table(s + [e]) == Table(s)[e.addr := e]
  {
    var r, table := s + [e], Table(s)[e.addr := e];
    AppendAddrs(s, e);
    forall i | 0 <= i < |r| ensures r[i].addr in table && table[r[i].addr] == r[i] {
      if i < |s| {
        TableAt(s, i);
      }
    }
    TableIs(r, table);
  }

  lemma SameAddrs(s: Entries, r: Entries)
    requires |s| == |r| && forall i :: 0 <= i < |s| ==> s[i].addr == r[i].addr
    ensures Addrs(s) == Addrs(r)
  {
  }

  lemma UpdateTable(s: Entries, i: nat, e: Entry)
    requires Distinct(s) && i < |s| && e.addr == s[i].addr
    ensures Distinct(s[i := e])
    ensures Addrs(s[i := e]) == Addrs(s)
    ensures Table(s[i := e]) == Table(s)[e.addr := e]
  {
    var r, table := s[i := e], Table(s)[e.addr := e];
    SameAddrs(s, r);
    forall k | 0 <= k < |r| ensures r[k].addr in table && table[r[k].addr] == r[k] {
      TableAt(s, k);
    }
    TableIs(r, table);
  }

  lemma SwapRemoveAddrs(s: Entries, i: nat)
    requires Distinct(s) && i < |s|
    ensures Addrs(SwapRemove(s, i)) == Addrs(s) - {s[i].addr}
  {
    var r, last := SwapRemove(s, i), |s| - 1;
    forall a | a in Addrs(r) ensures a in Addrs(s) - {s[i].addr} {
      var k := IndexOf(r, a);
      assert s[if k == i then last else k].addr == a;
    }
    forall a | a in Addrs(s) - {s[i].addr} ensures a in Addrs(r) {
      var k := IndexOf(s, a);
      assert r[if k == last then i else k].addr == a;
    }
  }

  lemma SwapRemoveDistinct(s: Entries, i: nat)
    requires Distinct(s) && i < |s|
    ensures Distinct(SwapRemove(s, i))
  {
    var r, last := SwapRemove(s, i), |s| - 1;
    forall j, k | 0 <= j < k < |r| ensures r[j].addr != r[k].addr {
      assert r[j] == s[if j == i then last else j];
      assert r[k] == s[if k == i then last else k];
    }
  }

  lemma SwapRemoveTable(s: Entries, i: nat)
    requires Distinct(s) && i < |s|
    ensures Table(SwapRemove(s, i)) == Table(s) - {s[i].addr}
  {
    var r, table := SwapRemove(s, i), Table(s) - {s[i].addr};
    SwapRemoveAddrs(s, i);
    forall k | 0 <= k < |r| ensures r[k].addr in table && table[r[k].addr] == r[k] {
      var k' := if k == i then |s| - 1 else k;
      TableAt(s, k');
      assert r[k] == s[k'];
    }
    TableIs(r, table);
  }

  /** When each operation succeeds, and what it does to the table of entries by address. */
  lemma RegisterMeaning(s: Entries, t: uint48, a: Address)
    requires Distinct(s)
    ensures var r := RegisterIn(s, t, a);
            && (r.Ok? <==> a !in Table(s))
            && (r.Ok? ==> Distinct(r.value))
            && (r.Ok? ==> Table(r.value) == Table(s)[a := Entry(a, t, 0)])
  {
    if a !in Table(s) {
      AppendTable(s, Entry(a, t, 0));
    }
  }

  lemma PauseMeaning(s: Entries, t: uint48, a: Address)
    requires Distinct(s)
    ensures var r := PauseIn(s, t, a);
            && (r.Ok? <==> a in Table(s) && Table(s)[a].disabled == 0)
            && (r.Ok? ==> Distinct(r.value))
            && (r.Ok? ==> Table(r.value) == Table(s)[a := Table(s)[a].(disabled := t)])
  {
    if a in Table(s) {
      UpdateTable(s, IndexOf(s, a), Table(s)[a].(disabled := t));
    }
  }

  lemma UnpauseMeaning(s: Entries, t: uint48, period: uint48, a: Address)
    requires Distinct(s)
    ensures var r := UnpauseIn(s, t, period, a);
            && (r.Ok? <==> a in Table(s) && Expired(Table(s)[a], t, period))
            && (r.Ok? ==> Distinct(r.value))
            && (r.Ok? ==> Table(r.value) == Table(s)[a := Entry(a, t, 0)])
  {
    if a in Table(s) {
      UpdateTable(s, IndexOf(s, a), Entry(a, t, 0));
    }
  }

  lemma UnregisterMeaning(s: Entries, t: uint48, period: uint48, a: Address)
    requires Distinct(s)
    ensures var r := UnregisterIn(s, t, period, a);
            && (r.Ok? <==> a in Table(s) && Expired(Table(s)[a], t, period))
            && (r.Ok? ==> Distinct(r.value))
            && (r.Ok? ==> Table(r.value) == Table(s) - {a})
  {
    if a in Table(s) {
      SwapRemoveTable(s, IndexOf(s, a));
      SwapRemoveDistinct(s, IndexOf(s, a));
    }
  }

  /** The entry of `a` is the same before and after. */
  ghost predicate SameEntry(s: Entries, r: Entries, a: Address) {
    (a in Table(s) <==> a in Table(r)) && (a in Table(s) ==> Table(s)[a] == Table(r)[a])
  }

  /** Each operation leaves the entries of all other addresses alone. */
  lemma OthersKeepEntry(s: Entries, t: uint48, period: uint48, b: Address, a: Address)
    requires Distinct(s) && a != b
    ensures RegisterIn(s, t, b).Ok? ==> SameEntry(s, RegisterIn(s, t, b).value, a)
    ensures PauseIn(s, t, b).Ok? ==> SameEntry(s, PauseIn(s, t, b).value, a)
    ensures UnpauseIn(s, t, period, b).Ok? ==> SameEntry(s, UnpauseIn(s, t, period, b).value, a)
    ensures UnregisterIn(s, t, period, b).Ok? ==> SameEntry(s, UnregisterIn(s, t, period, b).value, a)
  {
    assert RegisterIn(s, t, b).Ok? ==> SameEntry(s, RegisterIn(s, t, b).value, a) by { RegisterMeaning(s, t, b); }
    assert PauseIn(s, t, b).Ok? ==> SameEntry(s, PauseIn(s, t, b).value, a) by { PauseMeaning(s, t, b); }
    assert UnpauseIn(s, t, period, b).Ok? ==> SameEntry(s, UnpauseIn(s, t, period, b).value, a) by {
      UnpauseMeaning(s, t, period, b);
    }
    assert UnregisterIn(s, t, period, b).Ok? ==> SameEntry(s, UnregisterIn(s, t, period, b).value, a) by {
      UnregisterMeaning(s, t, period, b);
    }
  }

  /** The members after each operation. */
  lemma RegisterAddrs(s: Entries, t: uint48, a: Address)
    requires Distinct(s) && RegisterIn(s, t, a).Ok?
    ensures Distinct(RegisterIn(s, t, a).value) && Addrs(RegisterIn(s, t, a).value) == Addrs(s) + {a}
  {
    RegisterMeaning(s, t, a);
    AppendAddrs(s, Entry(a, t, 0));
  }

  lemma PauseAddrs(s: Entries, t: uint48, a: Address)
    requires Distinct(s) && PauseIn(s, t, a).Ok?
    ensures Distinct(PauseIn(s, t, a).value) && Addrs(PauseIn(s, t, a).value) == Addrs(s)
  {
    SameAddrs(s, PauseIn(s, t, a).value);
  }

  lemma UnpauseAddrs(s: Entries, t: uint48, period: uint48, a: Address)
    requires Distinct(s) && UnpauseIn(s, t, period, a).Ok?
    ensures Distinct(UnpauseIn(s, t, period, a).value) && Addrs(UnpauseIn(s, t, period, a).value) == Addrs(s)
  {
    SameAddrs(s, UnpauseIn(s, t, period, a).value);
  }

  lemma UnregisterAddrs(s: Entries, t: uint48, period: uint48, a: Address)
    requires Distinct(s) && UnregisterIn(s, t, period, a).Ok?
    ensures Distinct(UnregisterIn(s, t, period, a).value)
    ensures Addrs(UnregisterIn(s, t, period, a).value) == Addrs(s) - {a}
  {
    UnregisterMeaning(s, t, period, a);
    SwapRemoveAddrs(s, IndexOf(s, a));
  }

  // ---------- The storage structure ----------

  /** The position table is the exact inverse of the array. */
  ghost predicate Inverse(s: Entries, positions: map<Address, nat>) {
    && positions.Keys == Addrs(s)
    && forall i :: 0 <= i < |s| ==> s[i].addr in positions && positions[s[i].addr] == i + 1
  }

  lemma InverseIsDistinct(s: Entries, positions: map<Address, nat>)
    requires Inverse(s, positions)
    ensures Distinct(s)
    ensures forall a :: a in positions ==> positions[a] == IndexOf(s, a) + 1
  {
  }

  lemma InverseAppend(s: Entries, positions: map<Address, nat>, e: Entry)
    requires Inverse(s, positions) && e.addr !in positions
    ensures Inverse(s + [e], positions[e.addr := |s| + 1])
  {
    AppendAddrs(s, e);
  }

  /** Swap, pop and fix up the moved entry's position. */
  lemma InverseSwapRemove(s: Entries, positions: map<Address, nat>, i: nat)
    requires Inverse(s, positions) && i < |s|
    ensures var moved := if i == |s| - 1 then positions else positions[s[|s| - 1].addr := i + 1];
            Inverse(SwapRemove(s, i), moved - {s[i].addr})
  {
    var r, last := SwapRemove(s, i), |s| - 1;
    var moved := if i == last then positions else positions[s[last].addr := i + 1];
    SwapRemoveAddrs(s, i);
    assert moved.Keys == positions.Keys;
    forall k | 0 <= k < |r|
      ensures r[k].addr in moved - {s[i].addr} && moved[r[k].addr] == k + 1
    {
      assert r[k] == s[if k == i then last else k];
    }
  }

  class AddressSet {
    var elements: seq<Entry>
    /** One-based positions; a missing key is the zero of a Solidity mapping. */
    var positions: map<Address, nat>

    ghost predicate Valid()
      reads this
    {
      Inverse(elements, positions)
    }

    constructor ()
      ensures Valid() && elements == []
    {
      elements, positions := [], map[];
    }

    /** Looking an address up in the table finds what a search from the front finds. */
    lemma PositionIsIndex(a: Address)
      requires Valid()
      ensures a in positions <==> a in Addrs(elements)
      ensures a in positions ==> positions[a] == IndexOf(elements, a) + 1
    {
      InverseIsDistinct(elements, positions);
    }

    function Position(a: Address): nat
      reads this
    {
      if a in positions then positions[a] else 0
    }

    method Contains(a: Address) returns (r: bool)
      requires Valid()
      ensures r <==> a in Addrs(elements)
    {
      PositionIsIndex(a);
      r := Position(a) != 0;
    }

    method WasActiveAt(t: uint48, a: Address) returns (r: bool)
      requires Valid()
      ensures r <==> a in Table(elements) && ActiveAt(Table(elements)[a].enabled, Table(elements)[a].disabled, t)
      ensures r <==>
              && a in Table(elements)
              && 0 < Table(elements)[a].enabled <= t
              && (Table(elements)[a].disabled == 0 || t <= Table(elements)[a].disabled)
    {
      PositionIsIndex(a);
      var pos := Position(a);
      if pos == 0 {
        return false;
      }
      var e := elements[pos - 1];
      r := ActiveAt(e.enabled, e.disabled, t);
    }

    method GetActive(t: uint48) returns (active: seq<Address>)
      ensures active == ActiveAddrs(elements, t)
    {
      active := [];
      for i := 0 to |elements|
        invariant active == ActiveAddrs(elements[..i], t)
      {
        if ActiveAt(elements[i].enabled, elements[i].disabled, t) {
          active := active + [elements[i].addr];
        }
        assert elements[..i + 1][..i] == elements[..i];
      }
      assert elements[..|elements|] == elements;
    }

    method Register(t: uint48, a: Address) returns (r: Result<()>)
      requires Valid()
      modifies this
      ensures Valid()
      ensures Follows(r, RegisterIn(old(elements), t, a), old(elements), elements)
    {
      PositionIsIndex(a);
      var _ :- Require(Position(a) == 0, AlreadyRegistered);
      InverseAppend(elements, positions, Entry(a, t, 0));
      elements := elements + [Entry(a, t, 0)];
      positions := positions[a := |elements|];
      return Ok(());
    }

    method Pause(t: uint48, a: Address) returns (r: Result<()>)
      requires Valid()
      modifies this
      ensures Valid()
      ensures Follows(r, PauseIn(old(elements), t, a), old(elements), elements)
    {
      PositionIsIndex(a);
      var pos := Position(a);
      var _ :- Require(pos != 0, NotRegistered);
      var _ :- Require(elements[pos - 1].disabled == 0, NotEnabled);
      SameAddrs(elements, elements[pos - 1 := elements[pos - 1].(disabled := t)]);
      elements := elements[pos - 1 := elements[pos - 1].(disabled := t)];
      return Ok(());
    }

    method Unpause(t: uint48, period: uint48, a: Address) returns (r: Result<()>)
      requires Valid()
      modifies this
      ensures Valid()
      ensures Follows(r, UnpauseIn(old(elements), t, period, a), old(elements), elements)
    {
      PositionIsIndex(a);
      var pos := Position(a);
      var _ :- Require(pos != 0, NotRegistered);
      var _ :- Gate(elements[pos - 1], t, period, AlreadyEnabled);
      SameAddrs(elements, elements[pos - 1 := Entry(a, t, 0)]);
      elements := elements[pos - 1 := elements[pos - 1].(enabled := t, disabled := 0)];
      return Ok(());
    }

    /** Whether unregistering would succeed now; an overflowing period end reverts. */
    method CheckUnregister(t: uint48, period: uint48, a: Address) returns (r: Result<bool>)
      requires Valid()
      ensures a !in Addrs(elements) ==> r == Ok(false)
      ensures a in Addrs(elements) ==>
                var e := elements[IndexOf(elements, a)];
                r == if Overflows(e, period) then Revert(ArithmeticPanic) else Ok(Expired(e, t, period))
    {
      PositionIsIndex(a);
      var pos := Position(a);
      if pos == 0 || elements[pos - 1].disabled == 0 {
        return Ok(false);
      }
      var end :- CheckedAdd48(elements[pos - 1].disabled, period);
      return Ok(end <= t);
    }

    method Unregister(t: uint48, period: uint48, a: Address) returns (r: Result<()>)
      requires Valid()
      modifies this
      ensures Valid()
      ensures Follows(r, UnregisterIn(old(elements), t, period, a), old(elements), elements)
    {
      PositionIsIndex(a);
      var pos := Position(a);
      var _ :- Require(pos != 0, NotRegistered);
      var _ :- Gate(elements[pos - 1], t, period, Enabled);
      RemoveAt(pos - 1);
      return Ok(());
    }

    /** Swap with the last, pop, and fix the moved entry's position. */
    method RemoveAt(i: nat)
      requires Valid() && i < |elements|
      modifies this
      ensures Valid() && elements == SwapRemove(old(elements), i)
    {
      InverseSwapRemove(elements, positions, i);
      var a, last := elements[i].addr, |elements| - 1;
      if i != last {
        elements := elements[i := elements[last]];
        positions := positions[elements[i].addr := i + 1];
      }
      elements := elements[..last];
      positions := positions - {a};
    }
  }
}
