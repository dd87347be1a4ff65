/** Whole runs of the DIO driver: any interleaving of hardware arrivals,
interrupts, pulse commands and stamp requests, each an atomic step of
`WrNicDio`. */
module DioRuns {
  import opened Common
  import opened Timespec
  import opened WrNicDio

  datatype Op =
    | Arrive(i: nat, tag: Tag)           // the hardware stamps an edge on channel i
    | Irq(isr: set<nat>)                 // one run of the interrupt handler
    | Pulse(cmd: Cmd, now: nat)          // a pulse command, at second `now`
    | Stamp(sel: set<nat>)               // a stamp request for some channels

  ghost predicate Allowed(op: Op) {
    match op
    case Arrive(i, _) => i < CHANNELS
    case Irq(isr) => forall i <- isr :: i < CHANNELS
    case Pulse(cmd, _) => |cmd.t| >= 3
    case Stamp(_) => true
  }

  function Step(d: DevView, op: Op): (d': DevView)
    requires d.Ok() && Allowed(op)
    ensures d'.Ok()
  {
    match op
    case Arrive(i, tag) => d.(fifo := d.fifo[i := d.fifo[i] + [tag]])
    case Irq(isr) => ServeUpTo(d, isr, CHANNELS)
    case Pulse(cmd, now) => PulseStep(d, cmd, now)
    case Stamp(sel) => StampStep(d, sel)
  }

  ghost predicate AllAllowed(ops: seq<Op>) { forall op <- ops :: Allowed(op) }

  /** The device after the first `n` steps. */
  ghost function Run(d: DevView, ops: seq<Op>, n: nat): (d': DevView)
    requires d.Ok() && AllAllowed(ops) && n <= |ops|
    ensures d'.Ok()
  {
    if n == 0 then d else Step(Run(d, ops, n - 1), ops[n - 1])
  }

  /** The device when the driver starts. */
  const FRESH := ChanView([], Timespec(0, 0), Timespec(0, 0), 0, 0)
  const INIT := DevView([FRESH, FRESH, FRESH, FRESH, FRESH], [[], [], [], [], []], [])

  // ----------------------------------------------------- one interrupt, per channel

  function On(s: seq<Trigger>, i: nat): seq<Trigger> {
    if s == [] then []
    else On(s[..|s| - 1], i) + if s[|s| - 1].ch == i then [s[|s| - 1]] else []
  }

  lemma {:induction false} OnConcat(a: seq<Trigger>, b: seq<Trigger>, i: nat)
    ensures On(a + b, i) == On(a, i) + On(b, i)
  {
    if b == [] {
      assert a + b == a;
    } else {
      var b', x := b[..|b| - 1], b[|b| - 1];
      OnConcat(a, b', i);
      assert (a + b)[..|a + b| - 1] == a + b';
      Assoc(On(a, i), On(b', i), if x.ch == i then [x] else []);
    }
  }

  /** An interrupt treats the channels independently, as far as their own state
      and FIFO are concerned. */
  lemma {:induction false} ServedEach(d: DevView, isr: set<nat>, n: nat, i: nat)
    requires d.Ok() && i < CHANNELS && n <= CHANNELS
    ensures var e := ServeUpTo(d, isr, n);
            if i < n && i in isr then e.chans[i] == Served(d.chans[i], i, d.fifo[i]) && e.fifo[i] == []
            else e.chans[i] == d.chans[i] && e.fifo[i] == d.fifo[i]
  {
    hide Served, Programmed;
    if n > 0 {
      ServedEach(d, isr, n - 1, i);
      ServedEach(d, isr, n - 1, n - 1);
    }
  }

  /** No channel loops on behalf of another one. */
  ghost predicate Tame(d: DevView)
    requires d.Ok()
  {
    forall i :: 0 <= i < CHANNELS && d.chans[i].count != 0 ==> d.chans[i].target == i
  }

  /** The pulses an interrupt programs on a channel are those of that channel. */
  lemma {:induction false} ProgrammedEach(d: DevView, isr: set<nat>, n: nat, i: nat)
    requires d.Ok() && Tame(d) && i < CHANNELS && n <= CHANNELS
    ensures On(ServeUpTo(d, isr, n).armed, i)
         == On(d.armed, i) + if i < n && i in isr then Programmed(d.chans[i], i, d.fifo[i]) else []
  {
    hide Served, Programmed, On;
    if n > 0 {
      ProgrammedEach(d, isr, n - 1, i);
      ServedEach(d, isr, n - 1, n - 1);
      var e := ServeUpTo(d, isr, n - 1);
      var p := Programmed(d.chans[n - 1], n - 1, d.fifo[n - 1]);
      OnConcat(e.armed, p, i);
      OnOne(d.chans[n - 1], n - 1, d.fifo[n - 1], i);
    }
  }

  lemma OnOne(v: ChanView, k: nat, tags: seq<Tag>, i: nat)
    requires v.count != 0 ==> v.target == k
    ensures On(Programmed(v, k, tags), i) == if i == k then Programmed(v, k, tags) else []
  {
  }

  /** A stamp-bearing interrupt of a looping channel programs one pulse: a period after the
      setpoint, or after the raw tag that came last (less 40 ns) if another channel is meant. */
  lemma OnePulseEach(v: ChanView, i: nat, tags: seq<Tag>)
    requires tags != [] && v.count != 0
    ensures var t := tags[|tags| - 1];
            var from := if v.target == i then Ns(v.prev) else (t.hi * TWO32 + t.lo) * GIGA + 8 * t.cycle - 40;
            && Programmed(v, i, tags) == [TriggerAt(v.target, from + Ns(v.delay))]
            && (v.target == i ==> Ns(Served(v, i, tags).prev) == from + Ns(v.delay))
            && Served(v, i, tags).count == (if v.count > 0 then v.count - 1 else v.count)
  {
    hide PulseAt, TriggerAt, StampOf, Newest;
    PulseAtNs(v.target, Add(v.prev, v.delay));
    PulseAtNs(v.target, Add(StampOf(tags[|tags| - 1]), v.delay));
  }

  // ----------------------------------------------------------------- tameness

  lemma {:induction false} TameStep(d: DevView, op: Op)
    requires d.Ok() && Allowed(op) && Tame(d)
    ensures Tame(Step(d, op))
  {
    if op.Irq? {
      forall i | 0 <= i < CHANNELS
        ensures Step(d, op).chans[i].count != 0 ==> Step(d, op).chans[i].target == i
      {
        ServedEach(d, op.isr, CHANNELS, i);
      }
    }
  }

  /** In every reachable state a channel whose count is not zero targets itself. */
  lemma {:induction false} AlwaysTame(ops: seq<Op>, n: nat)
    requires AllAllowed(ops) && n <= |ops|
    ensures Tame(Run(INIT, ops, n))
  {
    if n > 0 {
      AlwaysTame(ops, n - 1);
      TameStep(Run(INIT, ops, n - 1), ops[n - 1]);
    }
  }

  // ------------------------------------------------------------ pulse trains

  /** The trigger for a time is tick floor((ns - 8) / 8). */
  lemma TriggerTick(i: nat, ns: int)
    ensures TriggerAt(i, ns).cycle < GIGA / 8
    ensures 0 <= ns - 8 < TWO40 * GIGA ==> TriggerAt(i, ns).sec * (GIGA / 8) + TriggerAt(i, ns).cycle == (ns - 8) / 8
  {
  }

  /** The pulses number 1 to `m` of a train. */
  function Train(i: nat, start: int, period: int, m: nat): (r: seq<Trigger>)
    ensures |r| == m
  {
    if m == 0 then [] else Train(i, start, period, m - 1) + [TriggerAt(i, start + m * period)]
  }

  lemma {:induction false} TrainAt(i: nat, start: int, period: int, m: nat, j: nat)
    requires j < m
    ensures Train(i, start, period, m)[j] == TriggerAt(i, start + (j + 1) * period)
  {
    if j < m - 1 {
      TrainAt(i, start, period, m - 1, j);
    }
  }

  /** Does this step serve channel `i` with at least one stamp? */
  ghost predicate Bearing(d: DevView, op: Op, i: nat)
    requires d.Ok() && i < CHANNELS
  {
    op.Irq? && i in op.isr && d.fifo[i] != []
  }

  /** How many of the first `n` steps do. */
  ghost function Bearings(d: DevView, ops: seq<Op>, n: nat, i: nat): nat
    requires d.Ok() && AllAllowed(ops) && n <= |ops| && i < CHANNELS
  {
    if n == 0 then 0
    else Bearings(d, ops, n - 1, i) + if Bearing(Run(d, ops, n - 1), ops[n - 1], i) then 1 else 0
  }

  /** Pulses that `k` interrupts get out of a count; a negative count is endless. */
  function Fired(count: int, k: nat): nat { if count < 0 || k <= count then k else count }

  function CountAfter(count: int, k: nat): int { if count < 0 then count else count - Fired(count, k) }

  /** A train started from `count` as it stands after `k` stamp-bearing interrupts. */
  ghost predicate OnTrain(d: DevView, i: nat, base: seq<Trigger>, start: int, period: Timespec, count: int, k: nat)
    requires d.Ok() && i < CHANNELS
  {
    var v := d.chans[i];
    && v.target == i && v.delay == period && v.count == CountAfter(count, k)
    && Ns(v.prev) == start + Fired(count, k) * Ns(period)
    && On(d.armed, i) == base + Train(i, start, Ns(period), Fired(count, k))
  }

  ghost predicate NoPulseOn(ops: seq<Op>, i: nat) {
    forall op <- ops :: op.Pulse? ==> op.cmd.channel != i
  }

  lemma OtherPulse(d: DevView, cmd: Cmd, now: nat, i: nat)
    requires d.Ok() && |cmd.t| >= 3 && i < CHANNELS && cmd.channel != i
    ensures PulseStep(d, cmd, now).chans[i] == d.chans[i]
    ensures On(PulseStep(d, cmd, now).armed, i) == On(d.armed, i)
  {
  }

  lemma TrainStep(d: DevView, op: Op, i: nat, base: seq<Trigger>, start: int, period: Timespec, count: int, k: nat)
    requires d.Ok() && Tame(d) && Allowed(op) && i < CHANNELS && (op.Pulse? ==> op.cmd.channel != i)
    requires OnTrain(d, i, base, start, period, count, k)
    ensures OnTrain(Step(d, op), i, base, start, period, count, if Bearing(d, op, i) then k + 1 else k)
  {
    hide PulseAt, TriggerAt, On, Newest;
    match op
    case Arrive(_, _) =>
    case Stamp(_) =>
    case Pulse(cmd, now) => OtherPulse(d, cmd, now, i);
    case Irq(isr) =>
      ServedEach(d, isr, CHANNELS, i);
      ProgrammedEach(d, isr, CHANNELS, i);
      if Bearing(d, op, i) && d.chans[i].count != 0 {
        var v, m := d.chans[i], Fired(count, k);
        PulseAtNs(i, Add(v.prev, v.delay));
        assert m * Ns(period) + Ns(period) == (m + 1) * Ns(period);
        assert Fired(count, k + 1) == m + 1;
        Assoc(base, Train(i, start, Ns(period), m), [TriggerAt(i, start + (m + 1) * Ns(period))]);
      } else {
        assert On(d.armed, i) + [] == On(d.armed, i);
      }
  }

  lemma {:induction false} TrainRun(d: DevView, ops: seq<Op>, n: nat, i: nat, base: seq<Trigger>,
                                   start: int, period: Timespec, count: int)
    requires d.Ok() && Tame(d) && AllAllowed(ops) && n <= |ops| && i < CHANNELS && NoPulseOn(ops, i)
    requires OnTrain(d, i, base, start, period, count, 0)
    ensures Tame(Run(d, ops, n))
    ensures OnTrain(Run(d, ops, n), i, base, start, period, count, Bearings(d, ops, n, i))
  {
    hide OnTrain, Bearing, Step;
    if n > 0 {
      TrainRun(d, ops, n - 1, i, base, start, period, count);
      TameStep(Run(d, ops, n - 1), ops[n - 1]);
      TrainStep(Run(d, ops, n - 1), ops[n - 1], i, base, start, period, count, Bearings(d, ops, n - 1, i));
    }
  }

  /** How many pulses follow the first one within `k` interrupts, after a loop command with
      this value: none for 0, and no end of them if the count comes out negative. */
  function Follow(value: nat, k: nat): nat {
    if value > TWO32 / 2 then k else if value == 0 then 0 else if k < value - 1 then k else value - 1
  }

  /** Pulse trains are exact and free of drift.  A loop command on a channel, followed by
      any run without another pulse command there, has programmed its first pulse at the
      time of the command, from the current second on if that is relative, and, for k
      stamp-bearing interrupts of that channel, the pulses at start + j * period for the
      next j as far as the count goes; when the stamps arrive and what they say does not
      matter. */
  lemma TrainIsExact(d: DevView, cmd: Cmd, now: nat, ops: seq<Op>)
    requires d.Ok() && Tame(d) && AllAllowed(ops) && NoPulseOn(ops, cmd.channel)
    requires |cmd.t| >= 3 && cmd.channel < CHANNELS && cmd.flags.loop && !cmd.flags.now && cmd.value < TWO32
    ensures var i, period := cmd.channel, Ns(cmd.t[2]);
            var start := Ns(cmd.t[0]) + (if cmd.flags.rel then now * GIGA else 0);
            var d0 := PulseStep(d, cmd, now);
            var k := Bearings(d0, ops, |ops|, i);
            var more := Follow(cmd.value, k);
            var e := Run(d0, ops, |ops|);
            && On(e.armed, i) == On(d.armed, i) + [TriggerAt(i, start)] + Train(i, start, period, more)
            && (0 < cmd.value <= TWO32 / 2 ==> e.chans[i].count == cmd.value - 1 - more)
            && (e.chans[i].count != 0 ==> e.chans[i].target == i)
  {
    hide TriggerAt, OnTrain, On, Train, Fired, CountAfter, Follow, Start, ToInt32, Bearings, Run, PulseStep,
         Tame, NoPulseOn;
    var i, start := cmd.channel, Ns(Start(cmd, now));
    var d0 := PulseStep(d, cmd, now);
    var base := On(d.armed, i) + [TriggerAt(i, start)];
    var count := ToInt32(if cmd.value > 0 then cmd.value - 1 else 0);
    TrainBegins(d, cmd, now);
    StartNs(cmd, now);
    var k := Bearings(d0, ops, |ops|, i);
    TrainRun(d0, ops, |ops|, i, base, start, cmd.t[2], count);
    TrainEnds(Run(d0, ops, |ops|), i, base, start, cmd.t[2], count, k);
    CountLeft(cmd.value, k);
  }

  /** In other words: pulse number j of the train, counting from 0, is armed at
      start + j * period, and the last one is number Follow(value, k). */
  lemma PulseNumber(d: DevView, cmd: Cmd, now: nat, ops: seq<Op>, j: nat)
    requires d.Ok() && Tame(d) && AllAllowed(ops) && NoPulseOn(ops, cmd.channel)
    requires |cmd.t| >= 3 && cmd.channel < CHANNELS && cmd.flags.loop && !cmd.flags.now && cmd.value < TWO32
    requires j <= Follow(cmd.value, Bearings(PulseStep(d, cmd, now), ops, |ops|, cmd.channel))
    ensures var i, d0 := cmd.channel, PulseStep(d, cmd, now);
            var start := Ns(cmd.t[0]) + (if cmd.flags.rel then now * GIGA else 0);
            var was, are := On(d.armed, i), On(Run(d0, ops, |ops|).armed, i);
            && |are| == |was| + 1 + Follow(cmd.value, Bearings(d0, ops, |ops|, i))
            && are[|was| + j] == TriggerAt(i, start + j * Ns(cmd.t[2]))
  {
    hide TriggerAt, On, Train, Bearings, Run, PulseStep, Tame, NoPulseOn, Follow, Ns;
    TrainIsExact(d, cmd, now, ops);
    if j > 0 {
      var k := Bearings(PulseStep(d, cmd, now), ops, |ops|, cmd.channel);
      var start := Ns(cmd.t[0]) + (if cmd.flags.rel then now * GIGA else 0);
      TrainAt(cmd.channel, start, Ns(cmd.t[2]), Follow(cmd.value, k), j - 1);
    }
  }

  /** What is left of the 32-bit count in an `atomic_t`. */
  lemma CountLeft(value: nat, k: nat)
    requires value < TWO32
    ensures var count := ToInt32(if value > 0 then value - 1 else 0);
            && Fired(count, k) == Follow(value, k)
            && (0 < value <= TWO32 / 2 ==> CountAfter(count, k) == value - 1 - Follow(value, k))
  {
  }

  lemma TrainBegins(d: DevView, cmd: Cmd, now: nat)
    requires d.Ok() && Tame(d) && |cmd.t| >= 3 && cmd.channel < CHANNELS && cmd.flags.loop && !cmd.flags.now
    ensures var d0, i, start := PulseStep(d, cmd, now), cmd.channel, Ns(Start(cmd, now));
            && Tame(d0)
            && OnTrain(d0, i, On(d.armed, i) + [TriggerAt(i, start)], start, cmd.t[2],
                       ToInt32(if cmd.value > 0 then cmd.value - 1 else 0), 0)
  {
    hide PulseAt, TriggerAt, On, ToInt32, Start;
    var i, start := cmd.channel, Start(cmd, now);
    TameStep(d, Pulse(cmd, now));
    PulseAtNs(i, start);
    OnConcat(d.armed, [PulseAt(i, start)], i);
    OnSingle(i, start);
    var base := On(d.armed, i) + [TriggerAt(i, Ns(start))];
    assert base + [] == base;
  }

  lemma OnSingle(i: nat, ts: Timespec)
    ensures On([PulseAt(i, ts)], i) == [PulseAt(i, ts)]
  {
  }

  lemma TrainEnds(d: DevView, i: nat, base: seq<Trigger>, start: int, period: Timespec, count: int, k: nat)
    requires d.Ok() && i < CHANNELS && OnTrain(d, i, base, start, period, count, k)
    ensures d.chans[i].count == CountAfter(count, k) && d.chans[i].target == i
    ensures On(d.armed, i) == base + Train(i, start, Ns(period), Fired(count, k))
  {
  }

  // ---------------------------------------------------------- timestamp rings

  /** The books of one channel: every stamp that an interrupt ever pulled from its
      FIFO, the index of the oldest one still in the ring, and the indices of
      those that were handed out. */
  datatype Ledger = Ledger(arrived: seq<Timespec>, next: nat, out: seq<nat>)

  function Range(a: nat, n: nat): seq<nat> { seq(n, i requires 0 <= i < n => a + i) }

  ghost function Book(l: Ledger, d: DevView, op: Op, i: nat): Ledger
    requires d.Ok() && Allowed(op) && i < CHANNELS
  {
    if op.Irq? && i in op.isr then
      var arrived := l.arrived + Stamps(d.fifo[i]);
      l.(arrived := arrived, next := if l.next + BUFFER_LEN <= |arrived| then |arrived| - (BUFFER_LEN - 1) else l.next)
    else if op.Stamp? && FirstReady(d.chans, op.sel, 0) == i then
      var n := Batch(d.chans[i].queue);
      l.(next := l.next + n, out := l.out + Range(l.next, n))
    else l
  }

  ghost function Books(ops: seq<Op>, n: nat, i: nat): Ledger
    requires AllAllowed(ops) && n <= |ops| && i < CHANNELS
  {
    if n == 0 then Ledger([], 0, []) else Book(Books(ops, n - 1, i), Run(INIT, ops, n - 1), ops[n - 1], i)
  }

  /** Everything the hardware stamped on a channel. */
  ghost function Arrivals(ops: seq<Op>, n: nat, i: nat): seq<Tag>
    requires n <= |ops|
  {
    if n == 0 then []
    else Arrivals(ops, n - 1, i) + Arriving(ops[n - 1], i)
  }

  /** Everything stamp requests returned from a channel. */
  ghost function Returned(ops: seq<Op>, n: nat, i: nat): seq<Timespec>
    requires AllAllowed(ops) && n <= |ops| && i < CHANNELS
  {
    if n == 0 then []
    else Returned(ops, n - 1, i) + Handed(Run(INIT, ops, n - 1), ops[n - 1], i)
  }

  /** ... by one step. */
  ghost function Handed(d: DevView, op: Op, i: nat): seq<Timespec>
    requires d.Ok()
  {
    if op.Stamp? && FirstReady(d.chans, op.sel, 0) == i then Stamped(d, op.sel) else []
  }

  /** Returned stamps are those that the books list. */
  ghost predicate Listed(l: Ledger, r: seq<Timespec>) {
    && |r| == |l.out|
    && forall j :: 0 <= j < |l.out| ==> l.out[j] < |l.arrived| && r[j] == l.arrived[l.out[j]]
  }

  /** The books agree with the ring.  Nothing is handed out twice or out of order,
      and what was lost had at least 511 younger stamps behind it. */
  ghost predicate Balanced(l: Ledger, queue: seq<Timespec>) {
    && l.next <= |l.arrived| && queue == l.arrived[l.next..]
    && (forall j :: 0 <= j < |l.out| ==> l.out[j] < l.next)
    && (forall j, k :: 0 <= j < k < |l.out| ==> l.out[j] < l.out[k])
    && (forall j :: 0 <= j < l.next && j !in l.out ==> j + (BUFFER_LEN - 1) < |l.arrived|)
  }

  lemma BookArrivals(l: Ledger, queue: seq<Timespec>, xs: seq<Timespec>)
    requires Balanced(l, queue) && |queue| < BUFFER_LEN
    ensures var arrived := l.arrived + xs;
            var next := if l.next + BUFFER_LEN <= |arrived| then |arrived| - (BUFFER_LEN - 1) else l.next;
            Balanced(l.(arrived := arrived, next := next), Newest(queue + xs))
  {
  }

  lemma BookRequest(l: Ledger, queue: seq<Timespec>, n: nat)
    requires Balanced(l, queue) && n <= |queue|
    ensures Balanced(l.(next := l.next + n, out := l.out + Range(l.next, n)), queue[n..])
  {
    var out := l.out + Range(l.next, n);
    assert l.arrived[l.next..][n..] == l.arrived[l.next + n..];
    forall j | l.next <= j < l.next + n
      ensures j in out
    {
      assert out[|l.out| + (j - l.next)] == j;
    }
    forall j | j in l.out
      ensures j in out
    {
      var k :| 0 <= k < |l.out| && l.out[k] == j;
      assert out[k] == j;
    }
  }

  lemma {:induction false} BooksBalance(ops: seq<Op>, n: nat, i: nat)
    requires AllAllowed(ops) && n <= |ops| && i < CHANNELS
    ensures Balanced(Books(ops, n, i), Run(INIT, ops, n).chans[i].queue)
  {
    hide Newest, Served, Programmed, Balanced, FirstReady;
    if n == 0 {
      EmptyBooks();
    } else {
      BooksBalance(ops, n - 1, i);
      var d, l, op := Run(INIT, ops, n - 1), Books(ops, n - 1, i), ops[n - 1];
      BookStep(d, l, op, i);
    }
  }

  lemma EmptyBooks()
    ensures Balanced(Ledger([], 0, []), [])
  {
  }

  lemma BookStep(d: DevView, l: Ledger, op: Op, i: nat)
    requires d.Ok() && Allowed(op) && i < CHANNELS && Balanced(l, d.chans[i].queue)
    ensures Balanced(Book(l, d, op, i), Step(d, op).chans[i].queue)
  {
    hide Newest, Programmed, Balanced, FirstReady, Stamps, Range, Batch;
    match op
    case Arrive(_, _) =>
    case Pulse(cmd, now) =>
    case Irq(isr) =>
      ServedEach(d, isr, CHANNELS, i);
      BookArrivals(l, d.chans[i].queue, Stamps(d.fifo[i]));
    case Stamp(sel) =>
      BatchFits(d.chans[i].queue);
      BookRequest(l, d.chans[i].queue, Batch(d.chans[i].queue));
  }

  lemma BatchFits(q: seq<Timespec>)
    ensures Batch(q) <= |q| && Batch(q) <= N_STAMP
  {
  }

  /** What a step adds to the stamps of a channel. */
  ghost function Arriving(op: Op, i: nat): seq<Tag> { if op.Arrive? && op.i == i then [op.tag] else [] }

  lemma InventedStep(d: DevView, l: Ledger, op: Op, i: nat, arrivals: seq<Tag>)
    requires d.Ok() && Allowed(op) && i < CHANNELS && l.arrived + Stamps(d.fifo[i]) == Stamps(arrivals)
    ensures Book(l, d, op, i).arrived + Stamps(Step(d, op).fifo[i]) == Stamps(arrivals + Arriving(op, i))
  {
    hide StampOf, FirstReady, Step, Batch, Range;
    FifoStep(d, op, i);
    StampsConcat(arrivals, Arriving(op, i));
    assert Stamps([]) == [];
    if op.Arrive? && op.i == i {
      StampsConcat(d.fifo[i], [op.tag]);
      Assoc(l.arrived, Stamps(d.fifo[i]), Stamps([op.tag]));
    } else {
      assert Stamps(arrivals) + Stamps([]) == Stamps(arrivals);
      assert l.arrived + Stamps(d.fifo[i]) + Stamps([]) == l.arrived + Stamps(d.fifo[i]);
    }
  }

  /** What has been pulled and what still waits in the hardware FIFO is what the
      hardware stamped, each stamp 40 ns earlier than its tag. */
  lemma {:induction false} NothingInvented(ops: seq<Op>, n: nat, i: nat)
    requires AllAllowed(ops) && n <= |ops| && i < CHANNELS
    ensures Books(ops, n, i).arrived + Stamps(Run(INIT, ops, n).fifo[i]) == Stamps(Arrivals(ops, n, i))
  {
    hide Stamps, Book, Step;
    if n == 0 {
      StampsNone();
    } else {
      NothingInvented(ops, n - 1, i);
      InventedStep(Run(INIT, ops, n - 1), Books(ops, n - 1, i), ops[n - 1], i, Arrivals(ops, n - 1, i));
    }
  }

  lemma StampsNone()
    ensures Stamps([]) == []
  {
  }

  lemma FifoStep(d: DevView, op: Op, i: nat)
    requires d.Ok() && Allowed(op) && i < CHANNELS
    ensures Step(d, op).fifo[i] == if op.Arrive? && op.i == i then d.fifo[i] + [op.tag]
                                   else if op.Irq? && i in op.isr then [] else d.fifo[i]
  {
    hide Newest, Served, Programmed, FirstReady;
    if op.Irq? {
      ServedEach(d, op.isr, CHANNELS, i);
    }
  }

  lemma StampsConcat(a: seq<Tag>, b: seq<Tag>)
    ensures Stamps(a + b) == Stamps(a) + Stamps(b)
  {
  }

  lemma BatchAsBooked(l: Ledger, r: seq<Timespec>, queue: seq<Timespec>, n: nat)
    requires Balanced(l, queue) && n <= |queue| && Listed(l, r)
    ensures Listed(l.(next := l.next + n, out := l.out + Range(l.next, n)), r + queue[..n])
  {
  }

  lemma HandedAsBooked(d: DevView, l: Ledger, op: Op, i: nat, r: seq<Timespec>)
    requires d.Ok() && Allowed(op) && i < CHANNELS && Balanced(l, d.chans[i].queue) && Listed(l, r)
    ensures Listed(Book(l, d, op, i), r + Handed(d, op, i))
  {
    hide FirstReady, Stamps, Batch, Balanced, Range;
    if op.Stamp? && FirstReady(d.chans, op.sel, 0) == i {
      BatchFits(d.chans[i].queue);
      BatchAsBooked(l, r, d.chans[i].queue, Batch(d.chans[i].queue));
    } else {
      assert r + [] == r;
    }
  }

  /** What was returned are the stamps that the books say were handed out. */
  lemma {:induction false} ReturnedAsBooked(ops: seq<Op>, n: nat, i: nat)
    requires AllAllowed(ops) && n <= |ops| && i < CHANNELS
    ensures var l := Books(ops, n, i);
            && |Returned(ops, n, i)| == |l.out|
            && forall j :: 0 <= j < |l.out| ==> l.out[j] < |l.arrived| && Returned(ops, n, i)[j] == l.arrived[l.out[j]]
  {
    hide Step, Book, Handed, Balanced;
    if n > 0 {
      ReturnedAsBooked(ops, n - 1, i);
      BooksBalance(ops, n - 1, i);
      HandedAsBooked(Run(INIT, ops, n - 1), Books(ops, n - 1, i), ops[n - 1], i, Returned(ops, n - 1, i));
    }
  }

  /** The timestamp rings refine bounded queues, over every run: a channel holds
      the youngest stamps that were pulled and not handed out, at most 511, in
      the order of arrival; none is handed out twice or out of order, and one is
      lost only when 511 younger ones have been pulled. */
  lemma RingsAreQueues(ops: seq<Op>, i: nat)
    requires AllAllowed(ops) && i < CHANNELS
    ensures var n := |ops|;
            var d, l := Run(INIT, ops, n), Books(ops, n, i);
            && Balanced(l, d.chans[i].queue) && |d.chans[i].queue| < BUFFER_LEN
            && l.arrived + Stamps(d.fifo[i]) == Stamps(Arrivals(ops, n, i))
            && |Returned(ops, n, i)| == |l.out|
            && forall j :: 0 <= j < |l.out| ==> Returned(ops, n, i)[j] == l.arrived[l.out[j]]
  {
    BooksBalance(ops, |ops|, i);
    NothingInvented(ops, |ops|, i);
    ReturnedAsBooked(ops, |ops|, i);
  }
}
