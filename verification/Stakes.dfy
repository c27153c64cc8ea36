/** Token and amount columns as returned by `getOperatorCollaterals`, and sums over them. */
module Stakes {
  import opened Evm
  import opened PauseableSet

  /** The amounts of one token, added up. */
  ghost function SumFor(tokens: seq<Address>, amounts: seq<nat>, token: Address): nat
    requires |tokens| == |amounts|
  {
    if tokens == [] then 0
    else
      var n := |tokens| - 1;
      SumFor(tokens[..n], amounts[..n], token) + if tokens[n] == token then amounts[n] else 0
  }

  ghost function Total(amounts: seq<nat>): nat {
    if amounts == [] then 0 else Total(amounts[..|amounts| - 1]) + amounts[|amounts| - 1]
  }

  /** Sums per token, added up over a set of tokens. */
  ghost function SumOver(members: set<Address>, tokens: seq<Address>, amounts: seq<nat>): nat
    requires |tokens| == |amounts|
  {
    if members == {} then 0
    else
      var token := Pick(members);
      SumFor(tokens, amounts, token) + SumOver(members - {token}, tokens, amounts)
  }

  ghost function Pick(s: set<Address>): (a: Address)
    requires s != {}
    ensures a in s
  {
    var a :| a in s; a
  }

  lemma {:induction false} SumOverAppend(members: set<Address>, tokens: seq<Address>, amounts: seq<nat>)
    requires |tokens| == |amounts| && tokens != []
    ensures var n := |tokens| - 1;
            var last := if tokens[n] in members then amounts[n] else 0;
            SumOver(members, tokens, amounts) == SumOver(members, tokens[..n], amounts[..n]) + last
  {
    if members != {} {
      SumOverAppend(members - {Pick(members)}, tokens, amounts);
    }
  }

  lemma {:induction false} SumOverNothing(members: set<Address>)
    ensures SumOver(members, [], []) == 0
  {
    if members != {} {
      SumOverNothing(members - {Pick(members)});
    }
  }

  /** Splitting the column by token loses nothing and counts nothing twice. */
  lemma {:induction false} TokensConserveTotal(members: set<Address>, tokens: seq<Address>, amounts: seq<nat>)
    requires |tokens| == |amounts| && forall i :: 0 <= i < |tokens| ==> tokens[i] in members
    ensures SumOver(members, tokens, amounts) == Total(amounts)
  {
    if tokens == [] {
      SumOverNothing(members);
    } else {
      SumOverAppend(members, tokens, amounts);
      TokensConserveTotal(members, tokens[..|tokens| - 1], amounts[..|tokens| - 1]);
    }
  }

  /** A single index of the token is at most the sum, and equals it exactly when every other index
      of the token holds nothing. */
  lemma {:induction false} OneOfSum(tokens: seq<Address>, amounts: seq<nat>, j: nat)
    requires |tokens| == |amounts| && j < |tokens|
    ensures amounts[j] <= SumFor(tokens, amounts, tokens[j])
    ensures amounts[j] == SumFor(tokens, amounts, tokens[j]) <==>
            forall k :: 0 <= k < |tokens| && k != j && tokens[k] == tokens[j] ==> amounts[k] == 0
  {
    var n := |tokens| - 1;
    if j == n {
      ZeroSumIff(tokens[..n], amounts[..n], tokens[j]);
    } else {
      OneOfSum(tokens[..n], amounts[..n], j);
    }
  }

  lemma {:induction false} ZeroSumIff(tokens: seq<Address>, amounts: seq<nat>, token: Address)
    requires |tokens| == |amounts|
    ensures SumFor(tokens, amounts, token) == 0 <==>
            forall k :: 0 <= k < |tokens| && tokens[k] == token ==> amounts[k] == 0
  {
    if tokens != [] {
      ZeroSumIff(tokens[..|tokens| - 1], amounts[..|tokens| - 1], token);
    }
  }

  // ---------- Active members as a filter ----------

  /** The second pass of the two-pass filters: copy the used part into an array of that length. */
  method Resize(found: array<Address>, count: nat) returns (r: seq<Address>)
    requires count <= found.Length
    ensures r == found[..count]
  {
    var result := new Address[count](_ => ZERO_ADDRESS);
    for i := 0 to count
      invariant result[..i] == found[..i]
    {
      result[i] := found[i];
    }
    r := result[..];
  }

  ghost function AllAddrs(s: Entries): (r: seq<Address>)
    ensures |r| == |s| && forall i :: 0 <= i < |s| ==> r[i] == s[i].addr
  {
    if s == [] then [] else AllAddrs(s[..|s| - 1]) + [s[|s| - 1].addr]
  }

  /** Whether the set's own lookup by address finds `a` active. */
  ghost predicate Active(table: map<Address, Entry>, a: Address, t: uint48) {
    a in table && ActiveAt(table[a].enabled, table[a].disabled, t)
  }

  ghost function Filter(addrs: seq<Address>, table: map<Address, Entry>, t: uint48): seq<Address> {
    if addrs == [] then []
    else
      var n := |addrs| - 1;
      Filter(addrs[..n], table, t) + if Active(table, addrs[n], t) then [addrs[n]] else []
  }

  lemma FilterGrows(addrs: seq<Address>, n: nat, table: map<Address, Entry>, t: uint48)
    requires n < |addrs|
    ensures Filter(addrs[..n + 1], table, t) ==
            Filter(addrs[..n], table, t) + if Active(table, addrs[n], t) then [addrs[n]] else []
  {
    assert addrs[..n + 1][..n] == addrs[..n];
  }

  lemma ActiveGrows(s: Entries, n: nat, t: uint48)
    requires n < |s|
    ensures ActiveAddrs(s[..n + 1], t) ==
            ActiveAddrs(s[..n], t) + if ActiveAt(s[n].enabled, s[n].disabled, t) then [s[n].addr] else []
  {
    assert s[..n + 1][..n] == s[..n];
  }

  /** The entries active by their own timestamps are, in order, the listed addresses that a lookup
      finds active. */
  lemma {:induction false} ActiveIsFilter(s: Entries, n: nat, t: uint48)
    requires Distinct(s) && n <= |s|
    ensures ActiveAddrs(s[..n], t) == Filter(AllAddrs(s)[..n], Table(s), t)
  {
    if n > 0 {
      ActiveIsFilter(s, n - 1, t);
      ActiveGrows(s, n - 1, t);
      FilterGrows(AllAddrs(s), n - 1, Table(s), t);
      TableAt(s, n - 1);
    }
  }

  /** The time lies between the entry's enabling time, which is not zero, and its disabling time, if any. */
  ghost predicate ShownActive(e: Entry, t: uint48) {
    0 < e.enabled <= t && (e.disabled == 0 || t <= e.disabled)
  }

  /** The active list by position: each entry counts by itself, and in order. */
  lemma ActiveAddrsOne(e: Entry, t: uint48)
    ensures ActiveAddrs([e], t) == if ShownActive(e, t) then [e.addr] else []
  {
    assert [e][..0] == [];
  }

  lemma {:induction false} ActiveAddrsConcat(a: Entries, b: Entries, t: uint48)
    ensures ActiveAddrs(a + b, t) == ActiveAddrs(a, t) + ActiveAddrs(b, t)
  {
    if b == [] {
      assert a + b == a;
    } else {
      assert (a + b)[..|a + b| - 1] == a + b[..|b| - 1];
      ActiveAddrsConcat(a, b[..|b| - 1], t);
    }
  }

  lemma {:induction false} ActiveAddrsMembers(s: Entries, t: uint48)
    ensures forall a :: a in ActiveAddrs(s, t) <==>
              exists i :: 0 <= i < |s| && s[i].addr == a && ShownActive(s[i], t)
  {
    if s != [] {
      var front := s[..|s| - 1];
      ActiveAddrsMembers(front, t);
      forall a ensures a in ActiveAddrs(s, t) <==>
              exists i :: 0 <= i < |s| && s[i].addr == a && ShownActive(s[i], t)
      {
        if i :| 0 <= i < |s| && s[i].addr == a && ShownActive(s[i], t) {
          assert i < |s| - 1 ==> front[i] == s[i];
        }
      }
    }
  }

  /** No active member is listed twice. */
  lemma {:induction false} ActiveAddrsDistinct(s: Entries, t: uint48)
    requires Distinct(s)
    ensures forall i, j :: 0 <= i < j < |ActiveAddrs(s, t)| ==> ActiveAddrs(s, t)[i] != ActiveAddrs(s, t)[j]
  {
    if s != [] {
      var front := s[..|s| - 1];
      ActiveAddrsDistinct(front, t);
      ActiveAddrsMembers(front, t);
      var last, rest := s[|s| - 1].addr, ActiveAddrs(front, t);
      assert last !in rest by {
        assert forall i :: 0 <= i < |front| ==> front[i].addr != last;
      }
      assert forall i :: 0 <= i < |rest| ==> rest[i] in rest;
    }
  }

  lemma ActiveIffLookup(s: Entries, t: uint48, a: Address)
    requires Distinct(s)
    ensures a in ActiveAddrs(s, t) <==> Active(Table(s), a, t)
  {
    ActiveAddrsMembers(s, t);
    if i :| 0 <= i < |s| && s[i].addr == a {
      TableAt(s, i);
    }
  }

  /** From `s` to `r`, the member `b` and nobody else is deactivated, exactly unless the epoch starts
      at second 1: then everybody stays as active as before. */
  ghost predicate Deactivates(s: Entries, r: Entries, now: uint48, b: Address) {
    forall a :: Active(Table(r), a, now) <==> Active(Table(s), a, now) && (a != b || now == 1)
  }

  lemma PausedLookup(s: Entries, r: Entries, t: uint48, now: uint48, b: Address)
    requires t + 1 == now && b in Table(s) && Table(s)[b].disabled == 0
    requires Table(r) == Table(s)[b := Table(s)[b].(disabled := t)]
    ensures Deactivates(s, r, now, b)
  {
  }

  /** A pause at the second before `now` shows in the very same epoch. */
  lemma PauseDeactivates(s: Entries, r: Entries, t: uint48, now: uint48, b: Address)
    requires Distinct(s) && t + 1 == now && PauseIn(s, t, b) == Ok(r)
    ensures Deactivates(s, r, now, b)
  {
    PauseMeaning(s, t, b);
    PausedLookup(s, r, t, now, b);
  }
}
