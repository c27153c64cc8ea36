/** One `cleanup()` pass over the operator set, and repeated passes within one epoch.

    The pass removes by swapping in the last entry and then steps on, so the entry it swapped in is
    not looked at. This module says exactly what that leaves behind. */
module CleanupPass {
  import opened Evm
  import opened PauseableSet

  /** The entries left by the loop when it stands at index `i`. */
  ghost function Sweep(s: Entries, i: nat, t: uint48, period: uint48): Entries
    decreases |s| - i
  {
    if i >= |s| then s
    else Sweep(if Expired(s[i], t, period) then SwapRemove(s, i) else s, i + 1, t, period)
  }

  /** The loop reaches an entry whose period end is out of range, and reverts. */
  ghost predicate SweepOverflows(s: Entries, i: nat, t: uint48, period: uint48)
    decreases |s| - i
  {
    i < |s| &&
    (|| Overflows(s[i], period)
     || SweepOverflows(if Expired(s[i], t, period) then SwapRemove(s, i) else s, i + 1, t, period))
  }

  ghost function CountExpired(s: Entries, t: uint48, period: uint48): (n: nat)
    ensures n <= |s|
  {
    if s == [] then 0
    else (if Expired(s[0], t, period) then 1 else 0) + CountExpired(s[1..], t, period)
  }

  lemma {:induction false} CountConcat(a: Entries, b: Entries, t: uint48, period: uint48)
    ensures CountExpired(a + b, t, period) == CountExpired(a, t, period) + CountExpired(b, t, period)
  {
    if a == [] {
      assert a + b == b;
    } else {
      assert (a + b)[1..] == a[1..] + b;
      CountConcat(a[1..], b, t, period);
    }
  }

  lemma {:induction false} CountZeroIffNone(s: Entries, t: uint48, period: uint48)
    ensures CountExpired(s, t, period) == 0 <==> forall e :: e in s ==> !Expired(e, t, period)
  {
    if s != [] {
      CountZeroIffNone(s[1..], t, period);
      assert s[0] in s && forall e :: e in s <==> e == s[0] || e in s[1..];
    }
  }

  // ---------- How the counts move in one step of the loop ----------

  /** Removing at `i` takes one expired entry out of the unseen part and moves the last entry,
      expired or not, into the seen part. */
  lemma CountSwapRemove(s: Entries, i: nat, t: uint48, period: uint48)
    requires i < |s| - 1 && Expired(s[i], t, period)
    ensures var r, last := SwapRemove(s, i), s[|s| - 1];
            var moved := if Expired(last, t, period) then 1 else 0;
            && CountExpired(r[..i + 1], t, period) == CountExpired(s[..i], t, period) + moved
            && CountExpired(r[i + 1..], t, period) + 1 + moved == CountExpired(s[i..], t, period)
  {
    var r, last := SwapRemove(s, i), s[|s| - 1];
    assert r[..i + 1] == s[..i] + [last];
    CountConcat(s[..i], [last], t, period);
    assert s[i..] == [s[i]] + (r[i + 1..] + [last]);
    CountConcat([s[i]], r[i + 1..] + [last], t, period);
    CountConcat(r[i + 1..], [last], t, period);
  }

  lemma CountTail(s: Entries, i: nat, lo: nat, t: uint48, period: uint48)
    requires i < lo < |s|
    ensures CountExpired(s[lo..], t, period)
         == CountExpired(SwapRemove(s, i)[lo..], t, period) + if Expired(s[|s| - 1], t, period) then 1 else 0
  {
    assert s[lo..] == SwapRemove(s, i)[lo..] + [s[|s| - 1]];
    CountConcat(SwapRemove(s, i)[lo..], [s[|s| - 1]], t, period);
  }

  lemma CountStepOver(s: Entries, i: nat, t: uint48, period: uint48)
    requires i < |s| && !Expired(s[i], t, period)
    ensures CountExpired(s[..i + 1], t, period) == CountExpired(s[..i], t, period)
    ensures CountExpired(s[i + 1..], t, period) == CountExpired(s[i..], t, period)
  {
    assert s[..i + 1] == s[..i] + [s[i]];
    CountConcat(s[..i], [s[i]], t, period);
  }

  lemma CountRemoveLast(s: Entries, t: uint48, period: uint48)
    requires |s| > 0 && Expired(s[|s| - 1], t, period)
    ensures CountExpired(s[|s| - 1..], t, period) == 1
    ensures SwapRemove(s, |s| - 1) == s[..|s| - 1]
    ensures Sweep(s, |s| - 1, t, period) == s[..|s| - 1]
  {
    assert s[|s| - 1..] == [s[|s| - 1]];
  }

  // ---------- What one pass leaves ----------

  /** At most half of the unseen expired entries survive. */
  lemma {:induction false} SweepHalves(s: Entries, i: nat, t: uint48, period: uint48)
    requires i <= |s|
    ensures CountExpired(Sweep(s, i, t, period), t, period)
         <= CountExpired(s[..i], t, period) + CountExpired(s[i..], t, period) / 2
    decreases |s| - i
  {
    if i == |s| {
      assert s[..i] == s;
    } else if !Expired(s[i], t, period) {
      CountStepOver(s, i, t, period);
      SweepHalves(s, i + 1, t, period);
    } else if i == |s| - 1 {
      CountRemoveLast(s, t, period);
    } else {
      CountSwapRemove(s, i, t, period);
      SweepHalves(SwapRemove(s, i), i + 1, t, period);
    }
  }

  /** The seen part stays as it is. */
  lemma {:induction false} SweepKeepsSeen(s: Entries, i: nat, t: uint48, period: uint48)
    requires i <= |s|
    ensures s[..i] <= Sweep(s, i, t, period)
    ensures CountExpired(s[..i], t, period) <= CountExpired(Sweep(s, i, t, period), t, period)
    decreases |s| - i
  {
    if i < |s| {
      if !Expired(s[i], t, period) {
        SweepKeepsSeen(s, i + 1, t, period);
        assert s[..i] == s[..i + 1][..i];
      } else if i == |s| - 1 {
        CountRemoveLast(s, t, period);
      } else {
        SweepKeepsSeen(SwapRemove(s, i), i + 1, t, period);
        assert s[..i] == SwapRemove(s, i)[..i + 1][..i];
      }
    }
    var r := Sweep(s, i, t, period);
    assert r == s[..i] + r[i..];
    CountConcat(s[..i], r[i..], t, period);
  }

  /** A pass from index `i` removes every expired entry it has not seen yet. */
  ghost predicate Clears(s: Entries, i: nat, t: uint48, period: uint48)
    requires i <= |s|
  {
    CountExpired(Sweep(s, i, t, period), t, period) == CountExpired(s[..i], t, period)
  }

  /** Of the `n` unseen expired entries, none is among the last `n - 1` entries of the array. */
  ghost predicate TailClean(s: Entries, i: nat, t: uint48, period: uint48)
    requires i <= |s|
  {
    var n := CountExpired(s[i..], t, period);
    n == 0 || CountExpired(s[|s| - n + 1..], t, period) == 0
  }

  lemma TailCleanStep(s: Entries, i: nat, t: uint48, period: uint48)
    requires i < |s| - 1 && Expired(s[i], t, period)
    ensures TailClean(s, i, t, period) <==>
            !Expired(s[|s| - 1], t, period) && TailClean(SwapRemove(s, i), i + 1, t, period)
  {
    CountSwapRemove(s, i, t, period);
    var r, n := SwapRemove(s, i), CountExpired(s[i..], t, period);
    var lo := |s| - n + 1;
    if Expired(s[|s| - 1], t, period) {
      CountTail(s, i, lo, t, period);
      assert CountExpired(s[lo..], t, period) > 0;
    } else if n > 1 {
      CountTail(s, i, lo, t, period);
      assert |r| - CountExpired(r[i + 1..], t, period) + 1 == lo;
    }
  }

  lemma {:induction false} SweepClearsIff(s: Entries, i: nat, t: uint48, period: uint48)
    requires i <= |s|
    ensures Clears(s, i, t, period) <==> TailClean(s, i, t, period)
    decreases |s| - i
  {
    if i == |s| {
      assert s[..i] == s;
    } else if !Expired(s[i], t, period) {
      CountStepOver(s, i, t, period);
      SweepClearsIff(s, i + 1, t, period);
    } else if i == |s| - 1 {
      CountRemoveLast(s, t, period);
    } else {
      SweepClearsIff(SwapRemove(s, i), i + 1, t, period);
      SweepKeepsSeen(SwapRemove(s, i), i + 1, t, period);
      CountSwapRemove(s, i, t, period);
      TailCleanStep(s, i, t, period);
    }
  }

  /** The comment on `cleanup` promises to clear any expired operator. One pass does so exactly
      when, with `n` expired operators, none of them sits among the last `n - 1` places. */
  lemma OnePassClearsIff(s: Entries, t: uint48, period: uint48)
    ensures var n := CountExpired(s, t, period);
            CountExpired(Sweep(s, 0, t, period), t, period) == 0 <==>
            n == 0 || forall k :: |s| - n + 1 <= k < |s| ==> !Expired(s[k], t, period)
  {
    var n := CountExpired(s, t, period);
    assert s[0..] == s;
    SweepClearsIff(s, 0, t, period);
    if n > 0 {
      var tail := s[|s| - n + 1..];
      CountZeroIffNone(tail, t, period);
      assert forall k :: |s| - n + 1 <= k < |s| ==> s[k] == tail[k - (|s| - n + 1)];
    }
  }

  /** Two expired operators and nothing else: the second is swapped into the first place and
      survives the pass. */
  lemma OnePassMayLeaveExpired(a: Address, b: Address)
    ensures var s := [Entry(a, 10, 19), Entry(b, 10, 19)];
            Sweep(s, 0, 30, 10) == [Entry(b, 10, 19)] && Expired(s[1], 30, 10)
  {
    var s := [Entry(a, 10, 19), Entry(b, 10, 19)];
    assert SwapRemove(s, 0) == [Entry(b, 10, 19)];
    assert Sweep(SwapRemove(s, 0), 1, 30, 10) == [Entry(b, 10, 19)];
  }

  /** A pass only removes expired entries; everybody else keeps their entry. */
  lemma {:induction false} SweepTable(s: Entries, i: nat, t: uint48, period: uint48)
    requires Distinct(s)
    ensures var r := Sweep(s, i, t, period);
            && Distinct(r)
            && Addrs(r) <= Addrs(s)
            && (forall a :: a in Table(r) ==> Table(r)[a] == Table(s)[a])
            && (forall a :: a in Table(s) && !Expired(Table(s)[a], t, period) ==> a in Table(r))
    decreases |s| - i
  {
    if i < |s| {
      if Expired(s[i], t, period) {
        TableAt(s, i);
        SwapRemoveTable(s, i);
        SwapRemoveDistinct(s, i);
        SweepTable(SwapRemove(s, i), i + 1, t, period);
      } else {
        SweepTable(s, i + 1, t, period);
      }
    }
  }

  /** Without an overflowing entry the pass does not revert. */
  lemma {:induction false} SweepFits(s: Entries, i: nat, t: uint48, period: uint48)
    requires forall k :: 0 <= k < |s| ==> !Overflows(s[k], period)
    ensures !SweepOverflows(s, i, t, period)
    decreases |s| - i
  {
    if i < |s| {
      SweepFits(if Expired(s[i], t, period) then SwapRemove(s, i) else s, i + 1, t, period);
    }
  }

  // ---------- Repeated passes ----------

  ghost function Passes(s: Entries, n: nat, t: uint48, period: uint48): Entries
    decreases n
  {
    if n == 0 then s else Passes(Sweep(s, 0, t, period), n - 1, t, period)
  }

  ghost function FloorLog2(k: nat): nat
    requires k > 0
  {
    if k == 1 then 0 else 1 + FloorLog2(k / 2)
  }

  ghost function PassesNeeded(k: nat): nat {
    if k == 0 then 0 else FloorLog2(k) + 1
  }

  lemma {:induction false} PassesNeededMonotone(j: nat, k: nat)
    requires j <= k
    ensures PassesNeeded(j) <= PassesNeeded(k)
    ensures k > 0 ==> PassesNeeded(k) == 1 + PassesNeeded(k / 2)
  {
    if j > 1 {
      PassesNeededMonotone(j / 2, k / 2);
    }
  }

  /** `floor(log2 k) + 1` passes in one epoch clear `k` expired operators, wherever they are. */
  lemma {:induction false} EnoughPassesClear(s: Entries, n: nat, t: uint48, period: uint48)
    requires n >= PassesNeeded(CountExpired(s, t, period))
    ensures CountExpired(Passes(s, n, t, period), t, period) == 0
    decreases n
  {
    if n > 0 {
      var r, k := Sweep(s, 0, t, period), CountExpired(s, t, period);
      assert s[0..] == s;
      SweepHalves(s, 0, t, period);
      PassesNeededMonotone(CountExpired(r, t, period), k / 2);
      PassesNeededMonotone(k / 2, k);
      EnoughPassesClear(r, n - 1, t, period);
    }
  }

  ghost predicate AllExpired(s: Entries, t: uint48, period: uint48) {
    forall k :: 0 <= k < |s| ==> Expired(s[k], t, period)
  }

  lemma {:induction false} SweepAllExpired(s: Entries, i: nat, t: uint48, period: uint48)
    requires i <= |s| && AllExpired(s, t, period)
    ensures var r := Sweep(s, i, t, period);
            AllExpired(r, t, period) && |r| == i + (|s| - i) / 2
    decreases |s| - i
  {
    if i < |s| - 1 {
      SweepAllExpired(SwapRemove(s, i), i + 1, t, period);
    } else if i == |s| - 1 {
      CountRemoveLast(s, t, period);
    }
  }

  /** The bound is tight: when everybody has expired, fewer passes leave somebody. */
  lemma {:induction false} FewerPassesDoNot(s: Entries, n: nat, t: uint48, period: uint48)
    requires AllExpired(s, t, period) && n < PassesNeeded(|s|)
    ensures |Passes(s, n, t, period)| > 0 && AllExpired(Passes(s, n, t, period), t, period)
    decreases n
  {
    if n > 0 {
      SweepAllExpired(s, 0, t, period);
      PassesNeededMonotone(0, |s|);
      FewerPassesDoNot(Sweep(s, 0, t, period), n - 1, t, period);
    }
  }
}
