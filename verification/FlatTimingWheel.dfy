/** A timing wheel with one bucket for each tick, proved to be a stable priority queue. */
module TimingWheels {
  import opened Errors
  import opened PowersOfTwo
  import opened Dates
  import opened EmbeddedLists
  import opened TimerQueues
  import opened WheelTicks

  /** Ticks are stored as signed 32-bit integers, and a negative one means that a timer is not in a wheel. */
  const TICK_LIMIT := 0x8000_0000

  lemma IdxMeans(value: nat, m: nat)
    requires m > 0
    ensures 0 <= value % m < m && (m <= TICK_LIMIT ==> Wrap(value % m + m) % m == value % m)
  {
    var r := value % m;
    if m <= TICK_LIMIT {
      WrapAtMost(r + m);
      MultipleMod(1, m, r);
    }
  }

  class FlatTimingWheel {
    const start: Date
    const tickMilliSeconds: nat
    const maxTicks: nat
    const hasBuckets: bool
    const timers: seq<EmbeddedList>
    var currentTick: UInt32

    /** The timers in the order in which they were linked, and the elements of the bucket lists. */
    ghost var queue: seq<Entry>
    ghost var buckets: seq<seq<Timer>>

    /** The bucket lists are in order and hold the elements `b`. */
    ghost predicate Lists(b: seq<seq<Timer>>, all: set<Timer>)
      reads timers, all
    {
      && |b| == |timers| && Among(b, all) && (forall i, j :: 0 <= i < j < |timers| ==> timers[i] != timers[j])
      && (forall i :: 0 <= i < |timers| ==> timers[i].elements == b[i] && timers[i].Valid())
    }

    ghost predicate Linked()
      reads `queue, `buckets, timers, TimersOf(queue)
    {
      && tickMilliSeconds > 0 && maxTicks > 0 && Lists(buckets, TimersOf(queue))
      && (if hasBuckets then Matches(buckets, queue, maxTicks) else queue == [])
    }

    /** The lists, the ticks and what was asked for agree, wherever the current tick is. */
    ghost predicate Usable()
      reads `queue, `buckets, timers, TimersOf(queue)
    {
      Linked() && Timed() && Promised(queue) && maxTicks <= TICK_LIMIT
    }

    ghost predicate Valid()
      reads `queue, `buckets, `currentTick, timers, TimersOf(queue)
    {
      Usable() && Window(queue, currentTick, maxTicks) && currentTick + maxTicks <= TICK_LIMIT
    }

    /** Every timer has the tick for the time when it was set and its delay. */
    ghost predicate Promised(q: seq<Entry>)
    {
      tickMilliSeconds > 0 && forall p :: 0 <= p < |q| ==> q[p].tick == TickFor(q[p].setAt, q[p].delay)
    }

    /** The timers know their ticks. */
    ghost predicate Timed()
      reads `queue, TimersOf(queue)`tick
    {
      forall p :: 0 <= p < |queue| ==> queue[p].timer.tick == queue[p].tick
    }

    /** `granted` says whether there was memory for the buckets.  A wheel without ticks, with more than their signed
        numbers can count, or with ticks of no length is of no use: the other operations divide by both. */
    constructor (ticks: nat, tickMilliSeconds: nat, now: Date, granted: bool)
      requires ticks < WORD && tickMilliSeconds < WORD
      ensures Valid() <==> 0 < ticks <= TICK_LIMIT && 0 < tickMilliSeconds
      ensures queue == [] && currentTick == 0 && hasBuckets == granted && fresh(timers)
      ensures start == now && maxTicks == ticks && this.tickMilliSeconds == tickMilliSeconds
    {
      var lists: seq<EmbeddedList> := [];
      while granted && |lists| < ticks
        invariant |lists| <= ticks && fresh(lists) && (!granted ==> lists == [])
        invariant forall i, j :: 0 <= i < j < |lists| ==> lists[i] != lists[j]
        invariant forall i :: 0 <= i < |lists| ==> lists[i].elements == [] && lists[i].Valid()
      {
        var list := new EmbeddedList();
        lists := lists + [list];
      }
      start, maxTicks, currentTick, hasBuckets := now, ticks, 0, granted;
      this.tickMilliSeconds := tickMilliSeconds;
      timers := lists;
      queue, buckets := [], seq(|lists|, _ => []);
    }

    /** The bucket for a tick, in unsigned arithmetic. */
    function Idx(value: nat): (i: nat)
      requires maxTicks > 0
      ensures maxTicks <= TICK_LIMIT ==> i == value % maxTicks
    {
      IdxMeans(value, maxTicks);
      Wrap(value % maxTicks + maxTicks) % maxTicks
    }

    function NowTick(now: Date): UInt32
      requires tickMilliSeconds > 0
    {
      TicksOf(Minus(now, start), tickMilliSeconds)
    }

    function TickFor(now: Date, delay: UInt32): UInt32
      requires tickMilliSeconds > 0
    {
      DueTick(start, now, delay, tickMilliSeconds)
    }

    /** Whole milliseconds since the wheel was made. */
    function Since(date: Date): nat
    {
      MilliSeconds(Minus(date, start))
    }

    /** A timer that expires now does so at most 3 (t - 1) milliseconds before its time, for ticks of t, unless the
        ticks of this time wrap around. */
    ghost predicate NotTooEarly(e: Entry, now: Date)
      requires tickMilliSeconds > 0
    {
      TicksFit(Minus(e.setAt, start), e.delay, tickMilliSeconds) ==>
        Since(now) >= Since(e.setAt) + e.delay - 3 * (tickMilliSeconds - 1)
    }

    /** The time of a timer that does not expire now has not passed by 2 (t - 1) milliseconds, unless the ticks of now
        wrap around. */
    ghost predicate NotOverdue(e: Entry, now: Date)
      requires tickMilliSeconds > 0
    {
      TicksFit(Minus(now, start), 0, tickMilliSeconds) ==>
        Since(now) < Since(e.setAt) + e.delay + 2 * (tickMilliSeconds - 1)
    }

    lemma NeverTooEarly(e: Entry, now: Date)
      requires tickMilliSeconds > 0 && e.tick == TickFor(e.setAt, e.delay) <= NowTick(now)
      ensures NotTooEarly(e, now)
    {
      if TicksFit(Minus(e.setAt, start), e.delay, tickMilliSeconds) {
        NotEarly(start, e.setAt, e.delay, tickMilliSeconds, now);
      }
    }

    lemma NeverOverdue(q: seq<Entry>, now: Date)
      requires Promised(q) && !SomeDue(q, NowTick(now))
      ensures forall e :: e in q ==> NotOverdue(e, now)
    {
      forall e | e in q && TicksFit(Minus(now, start), 0, tickMilliSeconds)
        ensures NotOverdue(e, now)
      {
        if Since(now) >= Since(e.setAt) + e.delay + 2 * (tickMilliSeconds - 1) {
          NotLate(start, e.setAt, e.delay, tickMilliSeconds, now);
          assert false;
        }
      }
    }

    ghost predicate Queued(timer: Timer)
      reads this
    {
      timer in TimersOf(queue)
    }

    /** Adds a timer to one list; the others do not notice. */
    method AddTo(i: nat, timer: Timer, ghost b: seq<seq<Timer>>, ghost all: set<Timer>)
      requires Lists(b, all) && Separated(b) && i < |timers| && timer !in all && timer.next == null
      requires timer.previous == null
      modifies timers[i], timers[i].elements`next, timer`next, timer`previous
      ensures Lists(b[i := b[i] + [timer]], all + {timer})
    {
      timers[i].AddLast(timer);
      forall j | 0 <= j < |timers| && j != i
        ensures timers[j].elements == b[j] && timers[j].Valid()
      {
        Apart(b, i, j);
        timers[j].Untouched();
      }
    }

    method TakeFrom(i: nat, timer: Timer, ghost k: nat, ghost b: seq<seq<Timer>>, ghost all: set<Timer>)
      requires Lists(b, all) && Separated(b) && i < |timers| && k < |b[i]| && b[i][k] == timer
      modifies timers[i], timers[i].elements`next, timers[i].elements`previous
      ensures Lists(b[i := Without(b[i], k)], all) && timer.next == null && timer.previous == null
    {
      timers[i].Remove(timer, k);
      forall j | 0 <= j < |timers| && j != i
        ensures timers[j].elements == b[j] && timers[j].Valid()
      {
        Apart(b, i, j);
        timers[j].Untouched();
      }
    }

    lemma Apart(b: seq<seq<Timer>>, i: nat, j: nat)
      requires Separated(b) && i < |b| && j < |b| && i != j
      ensures forall k :: 0 <= k < |b[j]| ==> b[j][k] !in b[i]
    {
      forall k | 0 <= k < |b[j]|
        ensures b[j][k] !in b[i]
      {
        assert b[j][k] in b[j];
      }
    }

    lemma Shrunk(b: seq<seq<Timer>>, all: set<Timer>, q: seq<Entry>)
      requires Lists(b, all) && Matches(b, q, maxTicks)
      ensures Lists(b, TimersOf(q))
    {
      MatchesMeans(b, q, maxTicks);
    }

    /** What the buckets hold now. */
    ghost method Now(q: seq<Entry>, b: seq<seq<Timer>>)
      requires tickMilliSeconds > 0 && hasBuckets && Lists(b, TimersOf(q)) && Matches(b, q, maxTicks)
      modifies `queue, `buckets
      ensures Linked() && queue == q && buckets == b
    {
      queue, buckets := q, b;
    }

    /** Links a timer into the bucket for its new tick. */
    method Link(timer: Timer, tick: nat, ghost e: Entry)
      requires Linked() && hasBuckets && maxTicks <= TICK_LIMIT && !Queued(timer) && timer.next == null
      requires timer.previous == null && e.timer == timer && e.tick == tick
      modifies `queue, `buckets, timers, TimersOf(queue)`next, timer
      ensures Linked() && queue == old(queue) + [e] && timer.tick == tick
    {
      ghost var q, b := queue, buckets;
      timer.tick := tick;
      var i := Idx(timer.tick);
      MatchesMeans(b, q, maxTicks);
      AddTo(i, timer, b, TimersOf(q));
      Appended(b, q, e, maxTicks);
      Now(q + [e], b[i := b[i] + [timer]]);
    }

    method Enqueue(timer: Timer, tick: nat, ghost e: Entry)
      requires Valid() && hasBuckets && !Queued(timer) && timer.next == null && timer.previous == null
      requires e.timer == timer && e.tick == tick == TickFor(e.setAt, e.delay)
      requires currentTick < tick < currentTick + maxTicks
      modifies `queue, `buckets, timers, TimersOf(queue)`next, timer
      ensures Valid() && queue == old(queue) + [e]
    {
      Link(timer, tick, e);
    }

    /** Unlinks the p-th timer of the queue from the bucket for its tick. */
    method Unlink(timer: Timer, ghost p: nat)
      requires Linked() && hasBuckets && maxTicks <= TICK_LIMIT && p < |queue| && queue[p].timer == timer
      requires queue[p].tick == timer.tick && timer.tick >= 0
      modifies `queue, `buckets, timers, TimersOf(queue)`next, TimersOf(queue)`previous
      ensures Linked() && Detached(old(queue), queue, timer, p) && timer.next == null && timer.previous == null
    {
      ghost var q, b, k := queue, buckets, Place(queue, p, maxTicks);
      var i := Idx(timer.tick);
      MatchesMeans(b, q, maxTicks);
      TakenAway(b, q, p, maxTicks);
      TakeFrom(i, timer, k, b, TimersOf(q));
      Shrunk(b[i := Without(b[i], k)], TimersOf(q), Removed(q, p));
      Now(Removed(q, p), b[i := Without(b[i], k)]);
    }

    /** The other timers know their ticks. */
    method UnlinkTimed(timer: Timer, ghost p: nat)
      requires Usable() && hasBuckets && p < |queue| && queue[p].timer == timer && timer.tick >= 0
      modifies `queue, `buckets, timers, TimersOf(queue)`next, TimersOf(queue)`previous
      ensures Usable() && Detached(old(queue), queue, timer, p) && timer.next == null && timer.previous == null
    {
      RemovedAt(queue, p);
      Unlink(timer, p);
      StillTimed(p);
    }

    method Dequeue(timer: Timer, ghost p: nat)
      requires Valid() && hasBuckets && p < |queue| && queue[p].timer == timer && timer.tick >= 0
      modifies `queue, `buckets, timers, TimersOf(queue)`next, TimersOf(queue)`previous
      ensures Valid() && Detached(old(queue), queue, timer, p) && timer.next == null && timer.previous == null
    {
      RemovedAt(queue, p);
      UnlinkTimed(timer, p);
    }

    twostate lemma StillTimed(p: nat)
      requires old(Timed()) && p < |old(queue)| && queue == Removed(old(queue), p)
      requires forall j :: 0 <= j < |old(queue)| ==> old(queue)[j].timer.tick == old(queue[j].timer.tick)
      ensures Timed()
    {
      RemovedAt(old(queue), p);
    }

    // ---------- operations ----------

    /** A timer that may be inserted into a wheel. */
    predicate Unlinked(timer: Timer)
      reads timer
    {
      timer.tick == -1 && timer.next == null && timer.previous == null
    }

    method Insert(timer: Timer?, delay: UInt32, now: Date) returns (error: Error)
      requires Valid() && (timer != null && timer.tick < 0 ==> timer.next == null && timer.previous == null)
      modifies `queue, `buckets, timers, TimersOf(queue)`next, if timer == null then {} else {timer}
      ensures Valid()
      ensures error == if timer == null then NullPointer
                       else if !hasBuckets then OutOfMemory
                       else if old(timer.tick) >= 0 then InvalidArgument
                       else if TickFor(now, delay) <= currentTick then Underflow
                       else if TickFor(now, delay) >= currentTick + maxTicks then Overflow
                       else Success
      ensures error == Success ==> queue == old(queue) + [Entry(timer, TickFor(now, delay), now, delay)]
      ensures error != Success ==> queue == old(queue) && (timer != null ==> unchanged(timer))
    {
      if timer == null {
        return NullPointer;
      }
      if !hasBuckets {
        return OutOfMemory;
      }
      if timer.tick >= 0 {
        return InvalidArgument;
      }
      var tick := Wrap(NowTick(now) + Quotient(delay, tickMilliSeconds));
      if tick <= currentTick {
        return Underflow;
      }
      if tick >= currentTick + maxTicks {
        return Overflow;
      }
      Enqueue(timer, tick, Entry(timer, tick, now, delay));
      error := Success;
    }

    /** A timer that claims to be in a wheel must be in this one. */
    method Remove(timer: Timer?) returns (error: Error)
      requires Valid() && (timer != null && timer.tick >= 0 && hasBuckets ==> Queued(timer))
      modifies `queue, `buckets, timers, TimersOf(queue)`next, TimersOf(queue)`previous,
               if timer == null then {} else {timer}
      ensures Valid()
      ensures error == if timer == null then NullPointer
                       else if old(timer.tick) < 0 then InvalidArgument
                       else if !hasBuckets then OutOfMemory
                       else Success
      ensures error == Success ==> queue == Removed(old(queue), IndexOf(old(queue), timer)) && Unlinked(timer)
      ensures error != Success ==> queue == old(queue) && (timer != null ==> unchanged(timer))
    {
      if timer == null {
        return NullPointer;
      }
      if timer.tick < 0 {
        return InvalidArgument;
      }
      if !hasBuckets {
        return OutOfMemory;
      }
      Dequeue(timer, IndexOf(queue, timer));
      timer.ResetTick();
      error := Success;
    }

    /** Moves a timer to another tick, behind the timers that are already there.  A timer that should have expired by
        now is removed. */
    method Update(timer: Timer?, delay: UInt32, now: Date) returns (error: Error)
      requires Valid() && (timer != null && timer.tick >= 0 && hasBuckets ==> Queued(timer))
      requires timer != null && timer.tick < 0 ==> timer.next == null && timer.previous == null
      modifies `queue, `buckets, timers, TimersOf(queue)`next, TimersOf(queue)`previous,
               if timer == null then {} else {timer}
      ensures Valid()
      ensures error == if timer == null then NullPointer
                       else if !hasBuckets then OutOfMemory
                       else if TickFor(now, delay) <= currentTick then Underflow
                       else if TickFor(now, delay) >= currentTick + maxTicks then Overflow
                       else Success
      ensures timer != null && old(timer.tick) < 0 && error == Success ==>
                queue == old(queue) + [Entry(timer, TickFor(now, delay), now, delay)]
      ensures timer != null && old(timer.tick) >= 0 && error == Success ==>
                var p, e := IndexOf(old(queue), timer), Entry(timer, TickFor(now, delay), now, delay);
                queue == if TickFor(now, delay) == old(timer.tick) then old(queue)[p := e]
                else old(queue)[..p] + old(queue)[p + 1..] + [e]
      ensures timer != null && old(timer.tick) >= 0 && error == Underflow ==>
                var p := IndexOf(old(queue), timer);
                queue == old(queue)[..p] + old(queue)[p + 1..]
      ensures error in {NullPointer, OutOfMemory, Overflow} ==> queue == old(queue)
      ensures timer != null && old(timer.tick) < 0 && error == Underflow ==> queue == old(queue)
      ensures timer != null && error in {OutOfMemory, Overflow} ==> unchanged(timer)
      ensures timer != null && error == Underflow ==> if old(timer.tick) < 0 then unchanged(timer) else Unlinked(timer)
    {
      if timer == null {
        return NullPointer;
      }
      if !hasBuckets {
        return OutOfMemory;
      }
      if timer.tick < 0 {
        error := Insert(timer, delay, now);
        return;
      }
      var tick := Wrap(NowTick(now) + Quotient(delay, tickMilliSeconds));
      error := Reschedule(timer, tick, Entry(timer, tick, now, delay));
    }

    /** `update` of a timer that is in the wheel. */
    method Reschedule(timer: Timer, tick: nat, ghost e: Entry) returns (error: Error)
      requires Valid() && hasBuckets && timer.tick >= 0 && Queued(timer)
      requires e.timer == timer && e.tick == tick == TickFor(e.setAt, e.delay)
      modifies `queue, `buckets, timers, TimersOf(queue)`next, TimersOf(queue)`previous, timer
      ensures Valid()
      ensures error == if tick <= currentTick then Underflow
                       else if tick >= currentTick + maxTicks then Overflow
                       else Success
      ensures queue == if error == Underflow then Removed(old(queue), IndexOf(old(queue), timer))
                       else if error == Overflow then old(queue)
                       else if tick == old(timer.tick) then old(queue)[IndexOf(old(queue), timer) := e]
                       else Removed(old(queue), IndexOf(old(queue), timer)) + [e]
      ensures error == Underflow ==> Unlinked(timer)
      ensures error == Overflow ==> unchanged(timer)
    {
      if tick <= currentTick {
        error := Remove(timer);
        error := Underflow;
      } else if tick >= currentTick + maxTicks {
        error := Overflow;
      } else {
        MoveTo(timer, tick, e);
        error := Success;
      }
    }

    /** The timer keeps its place, or goes behind all others. */
    method MoveTo(timer: Timer, tick: nat, ghost e: Entry)
      requires Valid() && hasBuckets && Queued(timer) && currentTick < tick < currentTick + maxTicks && timer.tick >= 0
      requires e.timer == timer && e.tick == tick == TickFor(e.setAt, e.delay)
      modifies `queue, `buckets, timers, TimersOf(queue)`next, TimersOf(queue)`previous, timer
      ensures Valid()
      ensures queue == if tick == old(timer.tick) then old(queue)[IndexOf(old(queue), timer) := e]
                       else Removed(old(queue), IndexOf(old(queue), timer)) + [e]
    {
      if tick == timer.tick {
        SetTo(timer, e);
      } else {
        Relink(timer, tick, e);
      }
    }

    /** Nothing but the promise changes for a timer that keeps its tick. */
    ghost method SetTo(timer: Timer, e: Entry)
      requires Valid() && hasBuckets && Queued(timer) && e.timer == timer && e.tick == timer.tick
      requires e.tick == TickFor(e.setAt, e.delay)
      modifies `queue
      ensures Valid() && queue == old(queue)[IndexOf(old(queue), timer) := e]
    {
      var p := IndexOf(queue, timer);
      SetAgain(buckets, queue, p, e, maxTicks);
      queue := queue[p := e];
    }

    method Relink(timer: Timer, tick: nat, ghost e: Entry)
      requires Valid() && hasBuckets && Queued(timer) && currentTick < tick < currentTick + maxTicks
      requires e.timer == timer && e.tick == tick == TickFor(e.setAt, e.delay)
      modifies `queue, `buckets, timers, TimersOf(queue)`next, TimersOf(queue)`previous, timer
      ensures Valid() && queue == Removed(old(queue), IndexOf(old(queue), timer)) + [e]
    {
      Dequeue(timer, IndexOf(queue, timer));
      Enqueue(timer, tick, e);
    }

    /** Takes the first timer, if any, out of a bucket. */
    method TakeFirst(i: nat) returns (timer: Timer?, ghost p: nat)
      requires Usable() && hasBuckets && i < maxTicks
      modifies `queue, `buckets, timers, TimersOf(queue)`next, TimersOf(queue)`previous
      ensures Usable() && (old(Window(queue, currentTick, maxTicks)) ==> Window(queue, currentTick, maxTicks))
      ensures timer == null <==> Bucket(old(queue), maxTicks, i) == []
      ensures timer == null ==> queue == old(queue)
      ensures timer != null ==> p < |old(queue)| && old(queue)[p].tick % maxTicks == i
      ensures timer != null ==> forall j :: 0 <= j < p ==> old(queue)[j].tick % maxTicks != i
      ensures timer != null ==> Detached(old(queue), queue, timer, p) && timer.next == null && timer.previous == null
    {
      p := 0;
      timer := timers[i].head;
      if timer != null {
        p := BucketEntry(queue, maxTicks, i, 0);
        UnlinkTimed(timer, p);
        RemovedAt(old(queue), p);
      }
    }

    lemma BucketLeft(tick: nat)
      requires Usable() && hasBuckets
      ensures timers[Idx(tick)].IsEmpty() <==> Bucket(queue, maxTicks, tick % maxTicks) == []
    {
    }

    /** The scanning loop of `nextExpired`: `n` is the turn in which it ends, and `tick` the tick it has come to
        then. */
    method Scan(nowTick: UInt32) returns (tick: UInt32, ghost n: nat)
      requires Usable() && hasBuckets && (nowTick < WORD - 1 || queue != [])
      ensures tick == ScanTick(currentTick, n) && LastTurn(queue, maxTicks, currentTick, nowTick, n)
    {
      tick, n := currentTick, 0;
      ghost var last := ScanStops(queue, maxTicks, currentTick, nowTick);
      while tick <= nowTick
        invariant n <= last && tick == ScanTick(currentTick, n) && NoStop(queue, maxTicks, currentTick, nowTick, n)
        decreases last - n
      {
        BucketLeft(tick);
        if !timers[Idx(tick)].IsEmpty() {
          return;
        }
        OneMoreTurn(queue, maxTicks, currentTick, nowTick, n, last, tick);
        tick, n := Wrap(tick + 1), n + 1;
      }
    }

    /** A timer that has been unlinked forgets its tick. */
    method Forget(timer: Timer)
      requires Usable() && !Queued(timer)
      modifies timer`tick
      ensures Usable() && timer.tick == -1
    {
      timer.ResetTick();
    }

    /** If the bucket that a timer came from is empty now, the wheel has moved on to its tick. */
    method Settle(tick: UInt32)
      requires Usable() && hasBuckets
      modifies `currentTick
      ensures Usable() && currentTick == Moved(queue, maxTicks, old(currentTick), tick)
    {
      BucketLeft(tick);
      if timers[Idx(tick)].IsEmpty() {
        currentTick := tick;
      }
    }

    /** Hands out the first timer in the bucket for a tick. */
    method HandOut(tick: UInt32) returns (timer: Timer, ghost p: nat)
      requires Usable() && hasBuckets && Bucket(queue, maxTicks, tick % maxTicks) != []
      modifies `queue, `buckets, `currentTick, timers, TimersOf(queue)
      ensures Usable() && FirstIn(old(queue), maxTicks, tick, p) && Detached(old(queue), queue, timer, p)
      ensures Unlinked(timer) && currentTick == Moved(queue, maxTicks, old(currentTick), tick)
    {
      var first;
      first, p := TakeFirst(Idx(tick));
      timer := first;
      Forget(timer);
      Settle(tick);
    }

    /** Takes the next timer that is due, however the clock has been set meanwhile: `n` is the turn in which the scan
        ends, and `p` the entry it takes. */
    method TakeExpired(now: Date) returns (timer: Timer?, ghost n: nat, ghost p: nat)
      requires Usable() && hasBuckets && (NowTick(now) == currentTick || NowTick(now) < WORD - 1 || queue != [])
      modifies `queue, `buckets, `currentTick, timers, TimersOf(queue)
      ensures Usable()
      ensures timer == null ==> queue == old(queue) && currentTick == NowTick(now)
      ensures timer == null ==>
                NowTick(now) == old(currentTick) || FindsNone(queue, maxTicks, old(currentTick), NowTick(now), n)
      ensures timer != null ==>
                && NowTick(now) != old(currentTick) && Finds(old(queue), maxTicks, old(currentTick), NowTick(now), n, p)
                && Detached(old(queue), queue, timer, p) && Unlinked(timer)
                && currentTick == Moved(queue, maxTicks, old(currentTick), ScanTick(old(currentTick), n))
    {
      var nowTick := NowTick(now);
      timer, n, p := null, 0, 0;
      if nowTick != currentTick {
        var tick;
        tick, n := Scan(nowTick);
        if tick > nowTick {
          currentTick := nowTick;
        } else {
          timer, p := HandOut(tick);
        }
      }
    }

    /** What goes wrong when the clock goes back: with ten ticks a round, a timer for tick 105 is handed out at tick 55,
        50 ticks too early, after a call at tick 50 between. */
    method ClockGoesBack(back: Date, early: Date) returns (timer: Timer?)
      requires Valid() && hasBuckets && maxTicks == 10 && currentTick == 100 && |queue| == 1 && queue[0].tick == 105
      requires NowTick(back) == 50 && NowTick(early) == 55
      modifies `queue, `buckets, `currentTick, timers, TimersOf(queue)
      ensures timer == old(queue)[0].timer && old(queue)[0].tick == NowTick(early) + 50
    {
      ghost var q := queue;
      FoundTooEarly(q);
      ghost var n, p;
      timer, n, p := TakeExpired(back);
      LastTurnUnique(q, 10, 100, 50, 0, n);
      timer, n, p := TakeExpired(early);
      LastTurnUnique(q, 10, 50, 55, 5, n);
    }

    /** `nextExpired`: the first of the timers with the least tick, if that has come.  The clock is expected not to go
        back, but may. */
    method NextExpired(now: Date) returns (timer: Timer?)
      requires Valid() && hasBuckets && (NowTick(now) < WORD - 1 || queue != [])
      modifies `queue, `buckets, `currentTick, timers, TimersOf(queue)
      ensures Usable()
      ensures timer == null <==> !SomeDue(old(queue), NowTick(now))
      ensures timer == null ==> queue == old(queue) && currentTick == NowTick(now)
      ensures timer == null ==> forall e :: e in queue ==> NotOverdue(e, now)
      ensures timer != null ==>
                && old(queue) != [] && Detached(old(queue), queue, timer, Next(old(queue))) && Unlinked(timer)
                && NotTooEarly(old(queue)[Next(old(queue))], now) && currentTick == After(old(queue), old(currentTick))
      ensures InReach(queue, currentTick, maxTicks)
         <==> old(SomeDue(queue, NowTick(now)) || InReach(queue, NowTick(now), maxTicks))
      ensures Valid() <==> old(StaysInOrder(queue, currentTick, maxTicks, NowTick(now), TICK_LIMIT))
      ensures old(currentTick) <= NowTick(now) <= TICK_LIMIT - maxTicks ==> Valid()
    {
      ghost var n, p;
      timer, n, p := TakeExpired(now);
      if timer != null {
        FoundMeans(old(queue), maxTicks, old(currentTick), NowTick(now), n, p);
        FoundInOrder(old(queue), maxTicks, old(currentTick), TICK_LIMIT);
        NeverTooEarly(old(queue)[p], now);
      } else {
        if NowTick(now) != old(currentTick) {
          ScanFindsNone(queue, maxTicks, old(currentTick), NowTick(now), n);
        }
        NeverOverdue(queue, now);
      }
    }

    /** `nextExpired` called until it returns null, as its callers should: the due timers come in the order of their
        ticks, and of their insertion within a tick, and the others stay as they are. */
    method ExpireAll(now: Date) returns (expired: seq<Timer>)
      requires Valid() && hasBuckets && currentTick <= NowTick(now) && NowTick(now) + maxTicks <= TICK_LIMIT
      modifies `queue, `buckets, `currentTick, timers, TimersOf(queue)
      ensures Valid() && currentTick == NowTick(now) && queue == Later(old(queue), NowTick(now))
      ensures HandedOut(old(queue), expired, queue, NowTick(now))
      ensures forall i :: 0 <= i < |expired| ==> NotTooEarly(Drained(old(queue))[i], now)
      ensures forall e :: e in queue ==> NotOverdue(e, now)
    {
      ghost var q := queue;
      expired := Drain(now, NowTick(now));
      InTime(q, expired, queue, now);
      NothingOverdue(q, expired, now);
    }

    method Drain(now: Date, ghost nowTick: nat) returns (expired: seq<Timer>)
      requires Valid() && hasBuckets && currentTick <= nowTick && nowTick + maxTicks <= TICK_LIMIT
      requires nowTick == NowTick(now)
      modifies `queue, `buckets, `currentTick, timers, TimersOf(queue)
      ensures Valid() && currentTick == nowTick && queue == Later(old(queue), nowTick)
      ensures HandedOut(old(queue), expired, queue, nowTick)
      decreases |queue|
    {
      ghost var q := queue;
      var timer := DrainOne(now, nowTick);
      if timer == null {
        NoneHandedOut(q, nowTick);
        expired := [];
      } else {
        expired := Drain(now, nowTick);
        OneMoreHandedOut(q, expired, queue, nowTick);
        expired := [timer] + expired;
      }
    }

    /** `nextExpired` with a clock that has not gone back. */
    method DrainOne(now: Date, ghost nowTick: nat) returns (timer: Timer?)
      requires Valid() && hasBuckets && currentTick <= nowTick && nowTick + maxTicks <= TICK_LIMIT
      requires nowTick == NowTick(now)
      modifies `queue, `buckets, `currentTick, timers, TimersOf(queue)
      ensures Valid() && currentTick <= nowTick
      ensures timer == null ==> queue == old(queue) && currentTick == nowTick && !SomeDue(queue, nowTick)
      ensures timer != null ==>
                && old(queue) != [] && old(queue)[Next(old(queue))].tick <= nowTick
                && Detached(old(queue), queue, timer, Next(old(queue)))
    {
      timer := NextExpired(now);
    }

    lemma InTime(q: seq<Entry>, expired: seq<Timer>, rest: seq<Entry>, now: Date)
      requires Promised(q) && HandedOut(q, expired, rest, NowTick(now))
      ensures forall i :: 0 <= i < |expired| ==> NotTooEarly(Drained(q)[i], now)
    {
      forall i | 0 <= i < |expired|
        ensures NotTooEarly(Drained(q)[i], now)
      {
        DrainedAll(q);
        SameElements(Drained(q), q, i);
        OneInTime(q, Drained(q)[i], now);
      }
    }

    lemma NothingOverdue(q: seq<Entry>, expired: seq<Timer>, now: Date)
      requires Promised(queue) && HandedOut(q, expired, queue, NowTick(now))
      ensures forall e :: e in queue ==> NotOverdue(e, now)
    {
      RestLater(q, expired, queue, NowTick(now));
      NeverOverdue(queue, now);
    }

    lemma OneInTime(q: seq<Entry>, e: Entry, now: Date)
      requires Promised(q) && e in q && e.tick <= NowTick(now)
      ensures NotTooEarly(e, now)
    {
      var j :| 0 <= j < |q| && q[j] == e;
      NeverTooEarly(e, now);
    }

    /** The timers of `all` that are not in `rest` have been unlinked and have forgotten their ticks. */
    ghost predicate Taken(all: set<Timer>, rest: set<Timer>)
      reads all
    {
      rest <= all && forall t :: t in all && t !in rest ==> Unlinked(t)
    }

    /** Removes all timers, bucket by bucket. */
    method Clear()
      requires Valid()
      modifies `queue, `buckets, timers, TimersOf(queue)
      ensures Valid() && queue == [] && Taken(old(TimersOf(queue)), {})
    {
      if !hasBuckets {
        return;
      }
      ghost var all := TimersOf(queue);
      var i := 0;
      while i < maxTicks
        invariant 0 <= i <= maxTicks && Valid() && FromBucket(queue, maxTicks, i) && Taken(all, TimersOf(queue))
      {
        ClearBucket(i, all);
        i := i + 1;
      }
      NoBucket(queue, maxTicks);
    }

    method ClearBucket(i: nat, ghost all: set<Timer>)
      requires Valid() && hasBuckets && i < maxTicks && FromBucket(queue, maxTicks, i) && Taken(all, TimersOf(queue))
      modifies `queue, `buckets, timers, all
      ensures Valid() && FromBucket(queue, maxTicks, i + 1) && Taken(all, TimersOf(queue))
    {
      while true
        invariant Valid() && FromBucket(queue, maxTicks, i) && Taken(all, TimersOf(queue))
        decreases |queue|
      {
        var more := ClearOne(i, all);
        if !more {
          return;
        }
      }
    }

    /** Takes the first timer, if any, out of a bucket, and makes it forget its tick. */
    method Drop(i: nat) returns (timer: Timer?, ghost p: nat)
      requires Valid() && hasBuckets && i < maxTicks
      modifies `queue, `buckets, timers, TimersOf(queue)
      ensures Valid() && (timer == null <==> Bucket(old(queue), maxTicks, i) == [])
      ensures timer == null ==> queue == old(queue)
      ensures timer != null ==> Detached(old(queue), queue, timer, p) && Unlinked(timer)
    {
      timer, p := TakeFirst(i);
      if timer != null {
        Forget(timer);
      }
    }

    method ClearOne(i: nat, ghost all: set<Timer>) returns (more: bool)
      requires Valid() && hasBuckets && i < maxTicks && FromBucket(queue, maxTicks, i) && Taken(all, TimersOf(queue))
      modifies `queue, `buckets, timers, TimersOf(queue)
      ensures Valid() && FromBucket(queue, maxTicks, if more then i else i + 1) && Taken(all, TimersOf(queue))
      ensures more ==> |queue| < |old(queue)|
    {
      ghost var q := queue;
      var timer, p := Drop(i);
      more := timer != null;
      if more {
        RemovedFrom(q, p, maxTicks, i);
      } else {
        NextBucket(queue, maxTicks, i);
      }
    }
  }
}
