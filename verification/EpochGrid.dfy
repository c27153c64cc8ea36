/** The registry's clock: block timestamps rounded down to the start of their epoch. */
module EpochGrid {
  import opened Evm

  datatype Grid = Grid(start: uint48, duration: uint48) {
    /** `getCurrentEpochStartTimestamp`, with Solidity's checks on every operation. */
    function Now(clock: uint48): Result<uint48> {
      var elapsed :- CheckedSub48(clock, start);
      var _ :- Require(duration != 0, DivisionByZero);
      var currentEpoch: uint48 := elapsed / duration;
      var offset :- CheckedMul48(currentEpoch, duration);
      CheckedAdd48(start, offset)
    }

    /** The first second of epoch `k`. */
    ghost function Tick(k: nat): nat {
      start + k * duration
    }

    /** The epoch that `clock` falls into. */
    ghost function EpochOf(clock: uint48): nat
      requires Running(clock)
    {
      (clock - start) / duration
    }

    ghost predicate Running(clock: uint48) {
      start <= clock && duration > 0
    }

    lemma TicksIncrease(j: nat, k: nat)
      requires duration > 0
      ensures j < k ==> Tick(j) + duration <= Tick(k)
      ensures j <= k ==> Tick(j) <= Tick(k)
      ensures Tick(j) == Tick(k) ==> j == k
      ensures Tick(j + 1) == Tick(j) + duration
    {
      if j < k {
        assert (j + 1) * duration <= k * duration;
      } else if k < j {
        assert (k + 1) * duration <= j * duration;
      }
    }

    /** No checked operation overflows: the call reverts only before the start or without epochs,
        and otherwise returns the last grid point not after the clock. */
    lemma NowIsEpochStart(clock: uint48)
      ensures Now(clock).Ok? <==> Running(clock)
      ensures Running(clock) ==> Now(clock) == Ok(Tick(EpochOf(clock)))
      ensures Running(clock) ==> Tick(EpochOf(clock)) <= clock < Tick(EpochOf(clock)) + duration
    {
      if Running(clock) {
        assert (clock - start) / duration * duration <= clock - start;
      }
    }

    /** Before the start the subtraction underflows; after it, a duration of 0 divides by zero. */
    lemma NowReasons(clock: uint48)
      ensures clock < start ==> Now(clock) == Revert(ArithmeticPanic)
      ensures clock >= start && duration == 0 ==> Now(clock) == Revert(DivisionByZero)
    {
    }

    /** A clock is in epoch `k` exactly between two neighbouring grid points, so the rounded time
        is constant inside an epoch. */
    lemma EpochIffBetweenTicks(clock: uint48, k: nat)
      requires Running(clock)
      ensures EpochOf(clock) == k <==> Tick(k) <= clock < Tick(k + 1)
    {
      NowIsEpochStart(clock);
      TicksIncrease(k, EpochOf(clock));
      TicksIncrease(EpochOf(clock), k);
    }

    lemma NowMonotoneAndIdempotent(clock: uint48, later: uint48)
      requires Running(clock) && clock <= later
      ensures EpochOf(clock) <= EpochOf(later)
      ensures Now(clock).value <= Now(later).value
      ensures Now(Now(clock).value) == Now(clock)
    {
      NowIsEpochStart(clock);
      NowIsEpochStart(later);
      TicksIncrease(EpochOf(later), EpochOf(clock));
      TicksIncrease(EpochOf(clock), EpochOf(later));
      EpochIffBetweenTicks(Now(clock).value, EpochOf(clock));
      NowIsEpochStart(Now(clock).value);
    }
  }
}
