/** `EpochTransitionStream`: from a noisy stream of payload attributes to epoch transitions. */
module EpochStream {
  import opened Primitives

  const SLOTS_PER_EPOCH: nat := 32

  datatype PayloadAttribute = PayloadAttribute(proposalSlot: u64, parentBlockNumber: u64)

  datatype EpochTransition = EpochTransition(blockNumber: u64, epoch: u64, slot: u64)

  /** What a poll of a stream yields: an item, the end of the stream, or nothing yet. */
  datatype Poll<+T> = Ready(item: Option<T>) | Pending

  // ---------- Specification: strict new maxima ----------

  /** The slot before the proposal slot; `u64` subtraction wraps around in a release build. */
  function CurrentSlot(pa: PayloadAttribute): u64 {
    if pa.proposalSlot == 0 then 0xFFFF_FFFF_FFFF_FFFF else pa.proposalSlot - 1
  }

  /** The epoch an event reaches. A proposal slot 0 names no slot and reaches none. */
  ghost function Reached(pa: PayloadAttribute): nat {
    if pa.proposalSlot == 0 then 0 else (pa.proposalSlot - 1) / SLOTS_PER_EPOCH
  }

  ghost function TransitionOf(pa: PayloadAttribute): EpochTransition
    requires pa.proposalSlot > 0
  {
    EpochTransition(pa.parentBlockNumber, (pa.proposalSlot - 1) / SLOTS_PER_EPOCH, pa.proposalSlot - 1)
  }

  /** Event `i` reaches an epoch above 0 and above everything before it. */
  ghost predicate IsRecord(events: seq<PayloadAttribute>, i: nat)
    requires i < |events|
  {
    Reached(events[i]) > 0 && forall j :: 0 <= j < i ==> Reached(events[j]) < Reached(events[i])
  }

  /** The transitions at the records, in order. */
  ghost function Records(events: seq<PayloadAttribute>): seq<EpochTransition> {
    if events == [] then []
    else
      var n := |events| - 1;
      Records(events[..n]) + if IsRecord(events, n) then [TransitionOf(events[n])] else []
  }

  ghost function HighestSlot(events: seq<PayloadAttribute>): (h: u64)
    ensures forall i :: 0 <= i < |events| ==> events[i].proposalSlot <= h
    ensures h == 0 || exists i :: 0 <= i < |events| && events[i].proposalSlot == h
  {
    if events == [] then 0
    else
      var n := |events| - 1;
      var h := HighestSlot(events[..n]);
      assert forall i :: 0 <= i < n ==> events[..n][i] == events[i];
      if events[n].proposalSlot > h then events[n].proposalSlot else h
  }

  ghost function HighestEpoch(events: seq<PayloadAttribute>): nat {
    var h := HighestSlot(events);
    if h == 0 then 0 else (h - 1) / SLOTS_PER_EPOCH
  }

  lemma HighestEpochBounds(events: seq<PayloadAttribute>)
    ensures forall i :: 0 <= i < |events| ==> Reached(events[i]) <= HighestEpoch(events)
    ensures HighestEpoch(events) == 0 ||
            exists i :: 0 <= i < |events| && Reached(events[i]) == HighestEpoch(events)
  {
  }

  /** An event is a record exactly when it exceeds the highest epoch so far; comparing it with the
      highest slot first, to drop duplicates, changes nothing. */
  lemma RecordIffAboveHighest(events: seq<PayloadAttribute>, pa: PayloadAttribute)
    ensures IsRecord(events + [pa], |events|) <==> Reached(pa) > HighestEpoch(events)
    ensures pa.proposalSlot <= HighestSlot(events) ==> !IsRecord(events + [pa], |events|)
  {
    var all := events + [pa];
    HighestEpochBounds(events);
    assert forall i :: 0 <= i < |events| ==> all[i] == events[i];
    if Reached(pa) <= HighestEpoch(events) && HighestEpoch(events) > 0 {
      var i :| 0 <= i < |events| && Reached(events[i]) == HighestEpoch(events);
      assert all[i] == events[i];
    }
  }

  lemma RecordsAppend(events: seq<PayloadAttribute>, pa: PayloadAttribute)
    ensures Records(events + [pa]) ==
            Records(events) + if Reached(pa) > HighestEpoch(events) then [TransitionOf(pa)] else []
    ensures HighestSlot(events + [pa]) == if pa.proposalSlot > HighestSlot(events) then pa.proposalSlot else HighestSlot(events)
  {
    assert (events + [pa])[..|events|] == events;
    RecordIffAboveHighest(events, pa);
  }

  lemma EpochMonotone(events: seq<PayloadAttribute>, pa: PayloadAttribute)
    ensures HighestEpoch(events + [pa]) ==
            if Reached(pa) > HighestEpoch(events) then Reached(pa) else HighestEpoch(events)
  {
    RecordsAppend(events, pa);
  }

  ghost predicate Increasing(ts: seq<EpochTransition>) {
    && (forall i :: 0 <= i < |ts| ==> 0 < ts[i].epoch == ts[i].slot / 32)
    && (forall i, j :: 0 <= i < j < |ts| ==> ts[i].epoch < ts[j].epoch && ts[i].slot < ts[j].slot)
  }

  lemma IncreasingAppend(ts: seq<EpochTransition>, t: EpochTransition)
    requires Increasing(ts) && t.epoch == t.slot / 32
    requires if ts == [] then t.epoch > 0 else ts[|ts| - 1].epoch < t.epoch
    ensures Increasing(ts + [t])
  {
    forall i | 0 <= i < |ts| ensures ts[i].epoch < t.epoch && ts[i].slot < t.slot {
      assert i < |ts| - 1 ==> ts[i].epoch < ts[|ts| - 1].epoch;
    }
  }

  ghost predicate EndsAt(ts: seq<EpochTransition>, epoch: nat) {
    if ts == [] then epoch == 0 else ts[|ts| - 1].epoch == epoch
  }

  lemma RecordsIncreaseStep(events: seq<PayloadAttribute>, pa: PayloadAttribute)
    requires Increasing(Records(events)) && EndsAt(Records(events), HighestEpoch(events))
    ensures Increasing(Records(events + [pa])) && EndsAt(Records(events + [pa]), HighestEpoch(events + [pa]))
  {
    RecordsAppend(events, pa);
    EpochMonotone(events, pa);
    var ts := Records(events);
    if Reached(pa) > HighestEpoch(events) {
      var t := TransitionOf(pa);
      IncreasingAppend(ts, t);
      assert Records(events + [pa]) == ts + [t] && (ts + [t])[|ts|] == t;
    } else {
      assert Records(events + [pa]) == ts;
    }
  }

  /** Emitted epochs and slots strictly increase, and each slot lies in its epoch
      (`compute_epoch_at_slot` of the Ethereum phase 0 beacon chain specification). The last emitted
      epoch is the highest epoch any event reached, and nothing is emitted if that is 0. */
  lemma {:induction false} RecordsIncrease(events: seq<PayloadAttribute>)
    ensures Increasing(Records(events))
    ensures EndsAt(Records(events), HighestEpoch(events))
  {
    if events != [] {
      var front, pa := events[..|events| - 1], events[|events| - 1];
      RecordsIncrease(front);
      RecordsIncreaseStep(front, pa);
      assert front + [pa] == events;
    }
  }

  /** Event `i` gives rise to the transition `t`: its slot, the one before the proposal slot, lies in an
      epoch of 32 slots above 0 and above the epochs of all events before it. */
  ghost predicate Emits(events: seq<PayloadAttribute>, i: nat, t: EpochTransition) {
    && i < |events| && events[i].proposalSlot > 32
    && t.slot == events[i].proposalSlot - 1 && t.epoch == t.slot / 32 && t.blockNumber == events[i].parentBlockNumber
    && forall j :: 0 <= j < i ==> events[j].proposalSlot == 0 || (events[j].proposalSlot - 1) / 32 < t.epoch
  }

  /** The emitted transitions are exactly those of such events. */
  lemma {:induction false} RecordsIff(events: seq<PayloadAttribute>, t: EpochTransition)
    ensures t in Records(events) <==> exists i :: Emits(events, i, t)
  {
    if events != [] {
      var n, front := |events| - 1, events[..|events| - 1];
      assert forall i :: 0 <= i < n ==> front[i] == events[i];
      RecordsIff(front, t);
      assert IsRecord(events, n) && TransitionOf(events[n]) == t <==> Emits(events, n, t);
      assert forall i: nat :: i < n ==> (Emits(events, i, t) <==> Emits(front, i, t));
      assert forall i: nat :: Emits(events, i, t) ==> i < n || i == n;
    }
  }

  /** One event, seen through the stream's two fields: dropping proposal slots that are not new and
      comparing epochs otherwise tracks the specification. */
  lemma ConsumeStep(events: seq<PayloadAttribute>, pa: PayloadAttribute)
    ensures var all, e := events + [pa], CurrentSlot(pa) / SLOTS_PER_EPOCH;
            if pa.proposalSlot <= HighestSlot(events) then
              && HighestSlot(all) == HighestSlot(events)
              && HighestEpoch(all) == HighestEpoch(events)
              && Records(all) == Records(events)
            else
              && HighestSlot(all) == pa.proposalSlot
              && HighestEpoch(all) == e >= HighestEpoch(events)
              && Records(all) == Records(events) +
                   if e > HighestEpoch(events) then [EpochTransition(pa.parentBlockNumber, e, CurrentSlot(pa))] else []
  {
    RecordsAppend(events, pa);
    EpochMonotone(events, pa);
  }

  // ---------- The stream ----------

  /** The underlying stream as the answers it has still to give: an event, or `None` for "not yet".
      After the last answer it is closed. */
  type Source = seq<Option<PayloadAttribute>>

  ghost function Events(source: Source): seq<PayloadAttribute> {
    if source == [] then []
    else (if source[0].Some? then [source[0].value] else []) + Events(source[1..])
  }

  /** Nothing but the pauses is left out, and the order stays. */
  lemma {:induction false} EventsConcat(a: Source, b: Source)
    ensures Events(a + b) == Events(a) + Events(b)
    ensures Events([]) == [] && Events([None]) == []
    ensures forall pa :: Events([Some(pa)]) == [pa]
  {
    forall pa ensures Events([Some(pa)]) == [pa] {
      assert [Some(pa)][1..] == [];
    }
    if a == [] {
      assert a + b == b;
    } else {
      assert (a + b)[1..] == a[1..] + b;
      EventsConcat(a[1..], b);
    }
  }

  class EpochTransitionStream {
    /** The epoch of the last transition, 0 before the first. */
    var epoch: u64
    /** The highest proposal slot seen; a slot that is not above it is dropped. */
    var proposalSlot: u64
    /** What the underlying stream has still to give. */
    var paStream: Source

    /** All events taken from the payload attributes stream, and all transitions emitted. */
    ghost var consumed: seq<PayloadAttribute>
    ghost var emitted: seq<EpochTransition>

    /** Once a slot was accepted, the epoch is that slot's epoch; what came out is what the
        specification says of what went in. */
    ghost predicate Valid()
      reads this
    {
      && proposalSlot == HighestSlot(consumed)
      && epoch == HighestEpoch(consumed)
      && emitted == Records(consumed)
    }

    constructor (paStream: Source)
      ensures Valid() && consumed == [] && emitted == [] && this.paStream == paStream
    {
      epoch, proposalSlot, this.paStream := 0, 0, paStream;
      consumed, emitted := [], [];
    }

    /** The stream's reaction to one event. */
    method Accept(pa: PayloadAttribute) returns (t: Option<EpochTransition>)
      requires Valid()
      modifies this`epoch, this`proposalSlot, this`consumed, this`emitted
      ensures Valid() && consumed == old(consumed) + [pa]
      ensures emitted == old(emitted) + if t.Some? then [t.value] else []
    {
      ConsumeStep(consumed, pa);
      consumed := consumed + [pa];
      var currentSlot := CurrentSlot(pa);
      if pa.proposalSlot <= proposalSlot {
        return None;
      }
      proposalSlot := pa.proposalSlot;
      var newEpoch: u64 := currentSlot / SLOTS_PER_EPOCH;
      if newEpoch > epoch {
        epoch := newEpoch;
        var transition := EpochTransition(pa.parentBlockNumber, newEpoch, currentSlot);
        emitted := emitted + [transition];
        return Some(transition);
      }
      return None;
    }

    /** One poll. The loop drops events until one starts a new epoch. */
    method PollNext() returns (r: Poll<EpochTransition>)
      requires Valid()
      modifies this
      ensures Valid()
      ensures consumed + Events(paStream) == old(consumed) + Events(old(paStream))
      ensures r == Ready(None) ==> paStream == []
      ensures r != Ready(None) ==> |paStream| < |old(paStream)|
      ensures emitted == old(emitted) + if r.Ready? && r.item.Some? then [r.item.value] else []
    {
      while true
        invariant Valid() && emitted == old(emitted)
        invariant consumed + Events(paStream) == old(consumed) + Events(old(paStream))
        invariant |paStream| <= |old(paStream)|
        decreases |paStream|
      {
        if paStream == [] {
          return Ready(None);
        }
        var polled := paStream[0];
        paStream := paStream[1..];
        if polled.None? {
          return Pending;
        }
        assert consumed + ([polled.value] + Events(paStream)) == consumed + [polled.value] + Events(paStream);
        var transition := Accept(polled.value);
        if transition.Some? {
          return Ready(transition);
        }
      }
    }

    /** Polls until there is a transition or the stream has ended. */
    method Next() returns (r: Option<EpochTransition>)
      requires Valid()
      modifies this
      ensures Valid()
      ensures consumed + Events(paStream) == old(consumed) + Events(old(paStream))
      ensures r.None? ==> paStream == []
      ensures r.Some? ==> |paStream| < |old(paStream)|
      ensures emitted == old(emitted) + if r.Some? then [r.value] else []
    {
      while true
        invariant Valid() && emitted == old(emitted)
        invariant consumed + Events(paStream) == old(consumed) + Events(old(paStream))
        invariant |paStream| <= |old(paStream)|
        decreases |paStream|
      {
        var polled := PollNext();
        if polled.Ready? {
          return polled.item;
        }
      }
    }
  }
}
