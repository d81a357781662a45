/**
 * PacketController: a bounded FIFO of timestamped packets that is filled
 * while active and drained, one `now` snapshot at a time, into a sink.
 * Each public operation is one atomic step; the wall clock is the `now`
 * parameter and the sink is the log `sinkCalls`.
 */
module PacketControl {
  import opened PacketBuffer

  class PacketController<P(==)> {
    const holdDurationMs: int
    const maxBufferedPackets: int
    const fastSequentialDelayMs: int

    var isActive: bool
    /** The buffered entries, oldest first. */
    var buffer: seq<BufferedPacket<P>>
    /** Every call made to the sink so far; each entry is the batch it received. */
    var sinkCalls: seq<seq<P>>

    /** Bookkeeping for "each packet is released at most once": every accepted entry
        has been released, discarded (evicted or cleared), or is still buffered. */
    ghost var accepted: seq<BufferedPacket<P>>
    ghost var released: seq<BufferedPacket<P>>
    ghost var discarded: seq<BufferedPacket<P>>

    ghost predicate Valid()
      reads this
    {
      && Bounded(buffer, maxBufferedPackets)
      && multiset(accepted) == multiset(released) + multiset(discarded) + multiset(buffer)
      && Flatten(sinkCalls) == DataOf(released)
    }

    constructor (holdDurationMs: int, maxBufferedPackets: int, fastSequentialDelayMs: int)
      ensures Valid()
      ensures this.holdDurationMs == holdDurationMs && this.maxBufferedPackets == maxBufferedPackets
      ensures this.fastSequentialDelayMs == fastSequentialDelayMs
      ensures !isActive && buffer == [] && sinkCalls == []
      ensures accepted == [] && released == [] && discarded == []
    {
      this.holdDurationMs := holdDurationMs;
      this.maxBufferedPackets := maxBufferedPackets;
      this.fastSequentialDelayMs := fastSequentialDelayMs;
      isActive := false;
      buffer := [];
      sinkCalls := [];
      accepted, released, discarded := [], [], [];
    }

    method Start()
      requires Valid()
      modifies this`isActive
      ensures Valid() && isActive
    {
      isActive := true;
    }

    /** Deactivates and empties the buffer; the clear is done before returning. */
    method Stop()
      requires Valid()
      modifies this`isActive, this`buffer, this`discarded
      ensures Valid() && !isActive && buffer == []
      ensures discarded == old(discarded) + old(buffer)
    {
      isActive := false;
      ClearBuffer();
    }

    /**
     * Buffers `packet` stamped with `now` when active, evicting the oldest
     * entry first when the buffer is full; ignores it when inactive.
     */
    method EnqueuePacket(packet: P, now: int)
      requires Valid()
      modifies this`buffer, this`accepted, this`discarded
      ensures Valid()
      ensures buffer == if old(isActive) then Enqueued(old(buffer), BufferedPacket(packet, now), maxBufferedPackets)
                        else old(buffer)
      ensures accepted == if old(isActive) then old(accepted) + [BufferedPacket(packet, now)] else old(accepted)
      ensures discarded == if old(isActive) then old(discarded) + Evicted(old(buffer), BufferedPacket(packet, now), maxBufferedPackets)
                           else old(discarded)
    {
      if isActive {
        var p := BufferedPacket(packet, now);
        ghost var evicted := Evicted(buffer, p, maxBufferedPackets);
        EnqueueAccounting(accepted, released, discarded, buffer, p, maxBufferedPackets);
        accepted, discarded := accepted + [p], discarded + evicted;
        Insert(p);
      }
    }

    /**
     * The locked section of an insert: evicts the oldest entry when the
     * buffer is full, then appends `p`.
     */
    method Insert(p: BufferedPacket<P>)
      modifies this`buffer
      ensures buffer == Enqueued(old(buffer), p, maxBufferedPackets)
    {
      // a capacity of zero or less keeps nothing (the source throws here instead)
      if maxBufferedPackets > 0 {
        if |buffer| >= maxBufferedPackets {
          buffer := buffer[1..];
        }
        buffer := buffer + [p];
      }
    }

    /**
     * Removes every entry eligible at the single snapshot `now` and returns
     * their payloads in buffer order; the younger entries stay, in order.
     */
    method DrainEligiblePackets(now: int) returns (ready: seq<P>, ghost drained: seq<BufferedPacket<P>>)
      modifies this`buffer
      ensures drained == Select(old(buffer), now, holdDurationMs, true)
      ensures ready == DataOf(drained)
      ensures buffer == Select(old(buffer), now, holdDurationMs, false)
    {
      ready, drained := [], [];
      // `seen` is the part of the old buffer the iterator has passed, `rest` the part still ahead of it
      ghost var seen, rest := [], buffer;
      var i := 0;
      while i < |buffer|
        invariant old(buffer) == seen + rest
        invariant buffer == Select(seen, now, holdDurationMs, false) + rest
        invariant i == |Select(seen, now, holdDurationMs, false)|
        invariant drained == Select(seen, now, holdDurationMs, true)
        invariant ready == DataOf(drained)
        decreases |buffer| - i
      {
        var buffered := buffer[i];
        assert buffered == rest[0];
        SelectSnoc(seen, buffered, now, holdDurationMs, true);
        SelectSnoc(seen, buffered, now, holdDurationMs, false);
        if now - buffered.enqueuedAtMs >= holdDurationMs {
          DataOfAppend(drained, [buffered]);
          ready := ready + [buffered.data];
          drained := drained + [buffered];
          buffer := buffer[..i] + buffer[i + 1..];
          assert buffer == Select(seen, now, holdDurationMs, false) + rest[1..];
        } else {
          i := i + 1;
          assert buffer == (Select(seen, now, holdDurationMs, false) + [buffered]) + rest[1..];
        }
        assert seen + rest == (seen + [buffered]) + rest[1..];
        seen, rest := seen + [buffered], rest[1..];
      }
      assert rest == [];
      assert seen == old(buffer);
    }

    /** Releases every eligible entry to the sink as one batch, if there is any. */
    method ReleaseInstantBurst(now: int)
      requires Valid()
      modifies this`buffer, this`sinkCalls, this`released
      ensures Valid()
      ensures buffer == Select(old(buffer), now, holdDurationMs, false)
      ensures sinkCalls == old(sinkCalls) + InstantTrace(DataOf(Select(old(buffer), now, holdDurationMs, true)))
      ensures released == old(released) + Select(old(buffer), now, holdDurationMs, true)
    {
      ghost var before, log, out := buffer, sinkCalls, released;
      var ready, drained := DrainEligiblePackets(now);
      if |ready| > 0 {
        sinkCalls := sinkCalls + [ready];
      }
      released := released + drained;
      ReleaseAccounting(accepted, out, discarded, before, now, holdDurationMs, maxBufferedPackets, log, InstantTrace(ready));
    }

    /** Releases every eligible entry to the sink one packet per call, in buffer order. */
    method ReleaseSequentialBurst(now: int)
      requires Valid()
      modifies this`buffer, this`sinkCalls, this`released
      ensures Valid()
      ensures buffer == Select(old(buffer), now, holdDurationMs, false)
      ensures sinkCalls == old(sinkCalls) + SequentialTrace(DataOf(Select(old(buffer), now, holdDurationMs, true)))
      ensures released == old(released) + Select(old(buffer), now, holdDurationMs, true)
    {
      ghost var before, log, out := buffer, sinkCalls, released;
      var ready, drained := DrainEligiblePackets(now);
      EmitSequentially(ready, drained);
      SequentialTraceDelivers(ready);
      ReleaseAccounting(accepted, out, discarded, before, now, holdDurationMs, maxBufferedPackets, log, SequentialTrace(ready));
    }

    /** The emission loop of a sequential release: one sink call per drained packet. */
    method EmitSequentially(ready: seq<P>, ghost drained: seq<BufferedPacket<P>>)
      requires |drained| == |ready|
      modifies this`sinkCalls, this`released
      ensures sinkCalls == old(sinkCalls) + SequentialTrace(ready)
      ensures released == old(released) + drained
    {
      for k := 0 to |ready|
        invariant sinkCalls == old(sinkCalls) + SequentialTrace(ready[..k])
        invariant released == old(released) + drained[..k]
      {
        assert ready[..k + 1] == ready[..k] + [ready[k]];
        SequentialTraceSnoc(ready[..k], ready[k]);
        assert drained[..k + 1] == drained[..k] + [drained[k]];
        sinkCalls := sinkCalls + [[ready[k]]];
        released := released + [drained[k]];
        // the pause of fastSequentialDelayMs after each call is not modelled
      }
      assert ready[..|ready|] == ready;
      assert drained[..|drained|] == drained;
    }

    /** Empties the buffer. */
    method ClearBuffer()
      requires Valid()
      modifies this`buffer, this`discarded
      ensures Valid() && buffer == []
      ensures discarded == old(discarded) + old(buffer)
    {
      discarded := discarded + buffer;
      buffer := [];
    }
  }

  /**
   * An insert keeps the controller's accounting: the new entry is accepted,
   * whatever it evicts is discarded, and the buffer stays within capacity.
   */
  lemma EnqueueAccounting<P>(accepted: seq<BufferedPacket<P>>, released: seq<BufferedPacket<P>>, discarded: seq<BufferedPacket<P>>,
                          buffer: seq<BufferedPacket<P>>, p: BufferedPacket<P>, capacity: int)
    requires multiset(accepted) == multiset(released) + multiset(discarded) + multiset(buffer)
    ensures multiset(accepted + [p])
         == multiset(released) + multiset(discarded + Evicted(buffer, p, capacity)) + multiset(Enqueued(buffer, p, capacity))
  {
    var kept, evicted := Enqueued(buffer, p, capacity), Evicted(buffer, p, capacity);
    EnqueueConserves(buffer, p, capacity);
    assert multiset(accepted + [p]) == multiset(accepted) + multiset{p};
    assert multiset(discarded + evicted) == multiset(discarded) + multiset(evicted);
    forall x
      ensures multiset(accepted + [p])[x] == (multiset(released) + multiset(discarded + evicted) + multiset(kept))[x]
    {
      assert (multiset(buffer) + multiset{p})[x] == (multiset(kept) + multiset(evicted))[x];
    }
  }

  /**
   * Handing a drain to the sink keeps the controller's accounting: the
   * released entries join `released`, the sink log grows by a trace that
   * delivers exactly their payloads, and the buffer keeps only the rest.
   */
  lemma ReleaseAccounting<P>(accepted: seq<BufferedPacket<P>>, released: seq<BufferedPacket<P>>, discarded: seq<BufferedPacket<P>>,
                          buffer: seq<BufferedPacket<P>>, now: int, holdDurationMs: int, capacity: int,
                          sinkCalls: seq<seq<P>>, trace: seq<seq<P>>)
    requires Bounded(buffer, capacity)
    requires multiset(accepted) == multiset(released) + multiset(discarded) + multiset(buffer)
    requires Flatten(sinkCalls) == DataOf(released)
    requires Flatten(trace) == DataOf(Select(buffer, now, holdDurationMs, true))
    ensures Bounded(Select(buffer, now, holdDurationMs, false), capacity)
    ensures multiset(accepted) == multiset(released + Select(buffer, now, holdDurationMs, true))
                                  + multiset(discarded) + multiset(Select(buffer, now, holdDurationMs, false))
    ensures Flatten(sinkCalls + trace) == DataOf(released + Select(buffer, now, holdDurationMs, true))
  {
    var drained, kept := Select(buffer, now, holdDurationMs, true), Select(buffer, now, holdDurationMs, false);
    SelectPartition(buffer, now, holdDurationMs);
    assert Bounded(kept, capacity) by {
      if buffer == [] { assert kept == []; }
    }
    FlattenAppend(sinkCalls, trace);
    DataOfAppend(released, drained);
  }
}
