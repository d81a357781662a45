/**
 * The value-level view of PacketController: what a buffered entry is, when it
 * may be released, what the bounded FIFO holds after an insert, how a drain
 * splits the buffer, and which sink calls each release mode makes.
 */
module PacketBuffer {
  import opened Wrappers

  /**
   * One buffered entry: the payload and the wall-clock time (ms) at which it
   * was enqueued. The payload is a byte array the controller never looks
   * inside, so it is a type parameter `P` here.
   */
  datatype BufferedPacket<P> = BufferedPacket(data: P, enqueuedAtMs: int)

  /** An entry may be released at `now` once it has been held at least `holdDurationMs`. */
  predicate Eligible<P>(p: BufferedPacket<P>, now: int, holdDurationMs: int)
  {
    now - p.enqueuedAtMs >= holdDurationMs
  }

  /**
   * The entries of `buf` whose eligibility at `now` equals `ready`, in buffer
   * order. A drain returns `Select(buf, now, hold, true)` and keeps
   * `Select(buf, now, hold, false)`.
   */
  function Select<P>(buf: seq<BufferedPacket<P>>, now: int, holdDurationMs: int, ready: bool): (r: seq<BufferedPacket<P>>)
    ensures |r| <= |buf|
    decreases |buf|
  {
    if buf == [] then []
    else
      var last := buf[|buf| - 1];
      Select(buf[..|buf| - 1], now, holdDurationMs, ready)
        + (if Eligible(last, now, holdDurationMs) == ready then [last] else [])
  }

  /** Looking at one more entry adds it to the side its eligibility picks. */
  lemma SelectSnoc<P>(s: seq<BufferedPacket<P>>, x: BufferedPacket<P>, now: int, holdDurationMs: int, ready: bool)
    ensures Select(s + [x], now, holdDurationMs, ready)
         == Select(s, now, holdDurationMs, ready) + if Eligible(x, now, holdDurationMs) == ready then [x] else []
  {
    assert (s + [x])[..|s|] == s;
  }

  /** The payloads of a run of entries, in the same order. */
  function DataOf<P>(s: seq<BufferedPacket<P>>): seq<P>
  {
    seq(|s|, i requires 0 <= i < |s| => s[i].data)
  }

  lemma DataOfAppend<P>(a: seq<BufferedPacket<P>>, b: seq<BufferedPacket<P>>)
    ensures DataOf(a + b) == DataOf(a) + DataOf(b)
  {
    assert forall i :: 0 <= i < |a| + |b| ==> DataOf(a + b)[i] == (DataOf(a) + DataOf(b))[i];
  }

  /** Filtering distributes over concatenation: a drain never reorders entries. */
  lemma {:induction false} SelectAppend<P>(a: seq<BufferedPacket<P>>, b: seq<BufferedPacket<P>>, now: int, holdDurationMs: int, ready: bool)
    ensures Select(a + b, now, holdDurationMs, ready)
         == Select(a, now, holdDurationMs, ready) + Select(b, now, holdDurationMs, ready)
    decreases |b|
  {
    if b == [] {
      assert a + b == a;
    } else {
      var b' := b[..|b| - 1];
      assert (a + b)[..|a + b| - 1] == a + b';
      assert (a + b)[|a + b| - 1] == b[|b| - 1];
      SelectAppend(a, b', now, holdDurationMs, ready);
    }
  }

  /**
   * Each entry occurs in the selection as often as in the buffer when its
   * eligibility matches, and not at all otherwise.
   */
  lemma {:induction false} SelectCounts<P>(buf: seq<BufferedPacket<P>>, now: int, holdDurationMs: int, ready: bool)
    ensures forall p :: multiset(Select(buf, now, holdDurationMs, ready))[p]
                     == if Eligible(p, now, holdDurationMs) == ready then multiset(buf)[p] else 0
    decreases |buf|
  {
    if buf != [] {
      var init := buf[..|buf| - 1];
      assert buf == init + [buf[|buf| - 1]];
      SelectCounts(init, now, holdDurationMs, ready);
    }
  }

  /** Whatever is selected comes from the buffer and has the requested eligibility. */
  lemma SelectSound<P>(buf: seq<BufferedPacket<P>>, now: int, holdDurationMs: int, ready: bool, p: BufferedPacket<P>)
    requires p in Select(buf, now, holdDurationMs, ready)
    ensures p in buf && Eligible(p, now, holdDurationMs) == ready
  {
    SelectCounts(buf, now, holdDurationMs, ready);
    assert multiset(Select(buf, now, holdDurationMs, ready))[p] > 0;
  }

  /**
   * A drain splits the buffer: what is released plus what stays is the whole
   * buffer, counted with multiplicity.
   */
  lemma {:induction false} SelectPartition<P>(buf: seq<BufferedPacket<P>>, now: int, holdDurationMs: int)
    ensures multiset(Select(buf, now, holdDurationMs, true)) + multiset(Select(buf, now, holdDurationMs, false))
         == multiset(buf)
    ensures |Select(buf, now, holdDurationMs, true)| + |Select(buf, now, holdDurationMs, false)| == |buf|
    decreases |buf|
  {
    if buf != [] {
      var init, last := buf[..|buf| - 1], buf[|buf| - 1];
      assert buf == init + [last];
      SelectPartition(init, now, holdDurationMs);
    }
  }

  /** When every entry of `s` has eligibility `ready`, selecting `ready` keeps all and selecting the other keeps none. */
  lemma {:induction false} SelectUniform<P>(s: seq<BufferedPacket<P>>, now: int, holdDurationMs: int, ready: bool)
    requires forall p :: p in s ==> Eligible(p, now, holdDurationMs) == ready
    ensures Select(s, now, holdDurationMs, ready) == s
    ensures Select(s, now, holdDurationMs, !ready) == []
    decreases |s|
  {
    if s != [] {
      var init, last := s[..|s| - 1], s[|s| - 1];
      assert s == init + [last];
      assert Eligible(last, now, holdDurationMs) == ready;
      SelectUniform(init, now, holdDurationMs, ready);
    }
  }

  /** A second drain at the same `now` releases nothing and keeps the buffer as the first one left it. */
  lemma DrainTwice<P>(buf: seq<BufferedPacket<P>>, now: int, holdDurationMs: int)
    ensures Select(Select(buf, now, holdDurationMs, false), now, holdDurationMs, true) == []
    ensures Select(Select(buf, now, holdDurationMs, false), now, holdDurationMs, false)
         == Select(buf, now, holdDurationMs, false)
  {
    var kept := Select(buf, now, holdDurationMs, false);
    forall p | p in kept
      ensures !Eligible(p, now, holdDurationMs)
    {
      SelectSound(buf, now, holdDurationMs, false, p);
    }
    SelectUniform(kept, now, holdDurationMs, false);
  }

  /** The inclusive boundary: an entry from time `t` is held at `t + hold - 1` and released at `t + hold`. */
  lemma EligibilityBoundary<P>(data: P, t: int, holdDurationMs: int)
    ensures !Eligible(BufferedPacket(data, t), t + holdDurationMs - 1, holdDurationMs)
    ensures Eligible(BufferedPacket(data, t), t + holdDurationMs, holdDurationMs)
  {
  }

  /** The size bound of a FIFO of capacity `capacity`; a non-positive capacity holds nothing. */
  predicate Bounded<P>(buf: seq<BufferedPacket<P>>, capacity: int)
  {
    |buf| <= capacity || buf == []
  }

  /** The last `n` entries of `s` (all of them when there are fewer, none when `n <= 0`). */
  function Newest<P>(s: seq<BufferedPacket<P>>, n: int): seq<BufferedPacket<P>>
  {
    if n <= 0 then [] else if |s| <= n then s else s[|s| - n..]
  }

  /**
   * The insert of PacketController.enqueuePacket as the source writes it: when
   * the buffer holds `capacity` entries or more, `removeFirst` runs first, and on
   * an empty deque it throws (`None`).
   */
  function EnqueueAsWritten<P>(buf: seq<BufferedPacket<P>>, p: BufferedPacket<P>, capacity: int): (r: Option<seq<BufferedPacket<P>>>)
    ensures r.None? <==> buf == [] && capacity <= 0
    ensures 1 <= capacity && Bounded(buf, capacity) ==> r == Some(Enqueued(buf, p, capacity))
  {
    if |buf| >= capacity then
      if buf == [] then None else Some(buf[1..] + [p])
    else
      Some(buf + [p])
  }

  /** With no room at all, the insert as written throws on the very first packet. */
  lemma ZeroCapacityInsertThrows<P>(p: BufferedPacket<P>)
    ensures EnqueueAsWritten([], p, 0) == None
    ensures Enqueued([], p, 0) == []
  {
  }

  /**
   * The insert the rest of the model uses: evict the oldest entry when full,
   * then append; a non-positive capacity drops the new packet instead of
   * throwing.
   */
  function Enqueued<P>(buf: seq<BufferedPacket<P>>, p: BufferedPacket<P>, capacity: int): (r: seq<BufferedPacket<P>>)
    ensures Bounded(buf, capacity) ==> Bounded(r, capacity)
  {
    if capacity <= 0 then buf
    else if |buf| >= capacity then buf[1..] + [p]
    else buf + [p]
  }

  /** The entries an insert drops: the oldest one when full, or the new one when there is no room at all. */
  function Evicted<P>(buf: seq<BufferedPacket<P>>, p: BufferedPacket<P>, capacity: int): seq<BufferedPacket<P>>
  {
    if capacity <= 0 then [p]
    else if |buf| >= capacity && buf != [] then [buf[0]]
    else []
  }

  /** An insert loses nothing: the new entry and the old ones are either kept or evicted. */
  lemma EnqueueConserves<P>(buf: seq<BufferedPacket<P>>, p: BufferedPacket<P>, capacity: int)
    ensures multiset(buf) + multiset{p} == multiset(Enqueued(buf, p, capacity)) + multiset(Evicted(buf, p, capacity))
  {
    if capacity > 0 && |buf| >= capacity {
      assert buf == [buf[0]] + buf[1..];
    }
  }

  /** Dropping older entries in front of enough newer ones does not change the newest `n`. */
  lemma NewestDropsPrefix<P>(pre: seq<BufferedPacket<P>>, u: seq<BufferedPacket<P>>, n: int)
    requires |u| >= n || pre == []
    ensures Newest(pre + u, n) == Newest(u, n)
  {
    if pre == [] {
      assert pre + u == u;
    } else if n > 0 {
      assert (pre + u)[|pre + u| - n..] == u[|u| - n..];
    }
  }

  /** Taking the newest `n` before appending more changes nothing about the newest `n` after. */
  lemma NewestAppend<P>(s: seq<BufferedPacket<P>>, t: seq<BufferedPacket<P>>, n: int)
    ensures Newest(Newest(s, n) + t, n) == Newest(s + t, n)
  {
    if n > 0 && |s| > n {
      var pre := s[..|s| - n];
      assert s == pre + Newest(s, n);
      assert s + t == pre + (Newest(s, n) + t);
      NewestDropsPrefix(pre, Newest(s, n) + t, n);
    }
  }

  /** One insert into a bounded buffer keeps exactly the newest `capacity` entries. */
  lemma EnqueuedKeepsNewest<P>(buf: seq<BufferedPacket<P>>, p: BufferedPacket<P>, capacity: int)
    requires Bounded(buf, capacity)
    ensures Enqueued(buf, p, capacity) == Newest(buf + [p], capacity)
  {
    if capacity > 0 && |buf| >= capacity {
      assert (buf + [p])[|buf + [p]| - capacity..] == buf[1..] + [p];
    }
  }

  /** The buffer after inserting `ps` one by one, oldest first. */
  function EnqueueAll<P>(buf: seq<BufferedPacket<P>>, ps: seq<BufferedPacket<P>>, capacity: int): seq<BufferedPacket<P>>
    decreases |ps|
  {
    if ps == [] then buf else EnqueueAll(Enqueued(buf, ps[0], capacity), ps[1..], capacity)
  }

  /** After any run of inserts the buffer holds exactly the newest `capacity` entries, oldest evicted first. */
  lemma {:induction false} EnqueueAllKeepsNewest<P>(buf: seq<BufferedPacket<P>>, ps: seq<BufferedPacket<P>>, capacity: int)
    requires Bounded(buf, capacity)
    ensures EnqueueAll(buf, ps, capacity) == Newest(buf + ps, capacity)
    decreases |ps|
  {
    if ps == [] {
      assert buf + ps == buf;
      if capacity > 0 {
        assert |buf| <= capacity;
      }
    } else {
      var next := Enqueued(buf, ps[0], capacity);
      EnqueuedKeepsNewest(buf, ps[0], capacity);
      EnqueueAllKeepsNewest(next, ps[1..], capacity);
      NewestAppend(buf + [ps[0]], ps[1..], capacity);
      assert buf + [ps[0]] + ps[1..] == buf + ps;
    }
  }

  /** Every payload handed to the sink, in call order. */
  function Flatten<P>(batches: seq<seq<P>>): seq<P>
    decreases |batches|
  {
    if batches == [] then [] else Flatten(batches[..|batches| - 1]) + batches[|batches| - 1]
  }

  lemma FlattenSnoc<P>(batches: seq<seq<P>>, b: seq<P>)
    ensures Flatten(batches + [b]) == Flatten(batches) + b
  {
    assert (batches + [b])[..|batches|] == batches;
  }

  /** The payloads of two runs of sink calls are those of the first followed by those of the second. */
  lemma {:induction false} FlattenAppend<P>(a: seq<seq<P>>, b: seq<seq<P>>)
    ensures Flatten(a + b) == Flatten(a) + Flatten(b)
    decreases |b|
  {
    if b == [] {
      assert a + b == a;
    } else {
      var init := b[..|b| - 1];
      FlattenAppend(a, init);
      assert (a + b)[..|a + b| - 1] == a + init;
      assert (a + b)[|a + b| - 1] == b[|b| - 1];
    }
  }

  /** The sink calls of an instant release: one call with the whole batch, or none for an empty one. */
  function InstantTrace<P>(ready: seq<P>): (t: seq<seq<P>>)
    ensures |t| == if ready == [] then 0 else 1
    ensures Flatten(t) == ready
  {
    if ready == [] then [] else [ready]
  }

  /** The sink calls of a sequential release: one singleton batch per packet, in order. */
  function SequentialTrace<P>(ready: seq<P>): seq<seq<P>>
  {
    seq(|ready|, i requires 0 <= i < |ready| => [ready[i]])
  }

  lemma SequentialTraceSnoc<P>(ready: seq<P>, x: P)
    ensures SequentialTrace(ready + [x]) == SequentialTrace(ready) + [[x]]
  {
    assert forall i :: 0 <= i < |ready| ==> SequentialTrace(ready + [x])[i] == [ready[i]];
  }

  /** A sequential release delivers exactly the drained payloads, in order, one per call. */
  lemma {:induction false} SequentialTraceDelivers<P>(ready: seq<P>)
    ensures |SequentialTrace(ready)| == |ready|
    ensures forall i :: 0 <= i < |ready| ==> SequentialTrace(ready)[i] == [ready[i]]
    ensures Flatten(SequentialTrace(ready)) == ready
    decreases |ready|
  {
    if ready != [] {
      var init := ready[..|ready| - 1];
      SequentialTraceDelivers(init);
      assert SequentialTrace(ready) == SequentialTrace(init) + [[ready[|ready| - 1]]];
      FlattenSnoc(SequentialTrace(init), [ready[|ready| - 1]]);
      assert ready == init + [ready[|ready| - 1]];
    }
  }

  /**
   * Capacity 3, hold 250 ms: packets a, b, c, d enqueued at the same instant
   * leave b, c, d buffered, and an instant release 260 ms later hands exactly
   * those three to the sink in one call and empties the buffer.
   */
  lemma EvictionScenario<P>(a: P, b: P, c: P, d: P, t: int)
    ensures var buf := EnqueueAll([], [BufferedPacket(a, t), BufferedPacket(b, t), BufferedPacket(c, t), BufferedPacket(d, t)], 3);
            && buf == [BufferedPacket(b, t), BufferedPacket(c, t), BufferedPacket(d, t)]
            && InstantTrace(DataOf(Select(buf, t + 260, 250, true))) == [[b, c, d]]
            && Select(buf, t + 260, 250, false) == []
  {
    var ps := [BufferedPacket(a, t), BufferedPacket(b, t), BufferedPacket(c, t), BufferedPacket(d, t)];
    EnqueueAllKeepsNewest([], ps, 3);
    assert [] + ps == ps;
    var buf := ps[1..];
    SelectUniform(buf, t + 260, 250, true);
    assert DataOf(buf) == [b, c, d];
  }

  /**
   * Hold 250 ms: packets p and q enqueued at the same instant and released
   * sequentially 260 ms later reach the sink as two singleton calls, p first.
   */
  lemma SequentialScenario<P>(p: P, q: P, t: int)
    ensures var buf := EnqueueAll([], [BufferedPacket(p, t), BufferedPacket(q, t)], 256);
            SequentialTrace(DataOf(Select(buf, t + 260, 250, true))) == [[p], [q]]
  {
    var ps := [BufferedPacket(p, t), BufferedPacket(q, t)];
    EnqueueAllKeepsNewest([], ps, 256);
    assert [] + ps == ps;
    SelectUniform(ps, t + 260, 250, true);
    assert DataOf(ps) == [p, q];
  }
}
