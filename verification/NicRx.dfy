/** Reception (kernel/wr_nic/nic-core.c): the descriptor ring shared with the
hardware, and the reconstruction of the time at which a frame came in. */
module NicRx {
  import opened Common
  import opened Timespec
  import opened Ppsg
  import opened NicMem

  const NSEC_PER_TICK := 8
  const TWO31 := 0x8000_0000
  const BUFFER := 2000

  // ------------------------------------------------ which second was that?

  /** The rule shared by reception and transmission: if the clock shows fewer ticks
      than the event, the event belongs to the previous second. */
  function EventSecond(counter: nat, utc: nat, ticks: nat): nat
    requires utc < TWO32
  {
    (if counter < ticks then (utc - 1) % TWO32 else utc) % TWO31
  }

  /** For an event at instant `event`, and the clock read at or after it, the rule
      gives the second of the event exactly if less than a second lies between the two
      -- or a multiple of 2^31 seconds more. */
  lemma SecondRecovered(event: nat, when: nat)
    requires event <= when
    ensures EventSecond(Tick(when), UtcLo(when), Tick(event)) == Second(event) % TWO31
       <==> (when - event) / REFCLK_FREQ % TWO31 == 0
  {
    var s, s' := Second(event), Second(when);
    var borrow := if Tick(when) < Tick(event) then 1 else 0;
    assert when - event == REFCLK_FREQ * (s' - s - borrow)
                           + (Tick(when) - Tick(event) + REFCLK_FREQ * borrow);
    var q := s' - s - borrow;
    assert (when - event) / REFCLK_FREQ == q by {
      Quotient(when - event, q, Tick(when) - Tick(event) + REFCLK_FREQ * borrow);
    }
    Borrowed(s', borrow);
    SameResidue(s, s' - borrow, q);
  }

  lemma Quotient(x: nat, q: int, r: nat)
    requires x == REFCLK_FREQ * q + r && r < REFCLK_FREQ
    ensures x / REFCLK_FREQ == q
  {
  }

  lemma Borrowed(s: nat, borrow: nat)
    requires borrow <= 1 && borrow <= s
    ensures (if borrow == 1 then (s % TWO32 - 1) % TWO32 else s % TWO32) % TWO31 == (s - borrow) % TWO31
  {
  }

  lemma SameResidue(a: nat, b: nat, q: int)
    requires b == a + q
    ensures b % TWO31 == a % TWO31 <==> q % TWO31 == 0
  {
  }

  /** What a frame is stamped with if the clock is read at `when`. */
  function FrameTime(ticks: nat, when: nat): Timespec {
    Timespec(EventSecond(Tick(when), UtcLo(when), ticks), NSEC_PER_TICK * ticks)
  }

  /** A frame whose clock read ends less than a second after it came in gets the
      time at which it came in, seconds modulo 2^31. */
  lemma FrameTimeIsExact(event: nat, t: seq<nat>, when: nat)
    requires Ordered(t) && event <= t[0] && t[3] - event < REFCLK_FREQ && t[0] <= when <= t[3]
    ensures FrameTime(Tick(event), when) == Timespec(Second(event) % TWO31, 8 * Tick(event))
  {
    SecondRecovered(event, when);
  }

  /** The ticks belong to an event at instant `event`, less than a second before the end
      of a clock read. */
  ghost predicate Fresh(ticks: nat, event: nat, t: seq<nat>) {
    ticks == Tick(event) && Ordered(t) && event <= t[0] && t[3] - event < REFCLK_FREQ
  }

  lemma FreshTimeIsExact(ticks: nat, t: seq<nat>, when: nat)
    requires Ordered(t) && t[0] <= when <= t[3]
    ensures forall event :: Fresh(ticks, event, t) ==>
              FrameTime(ticks, when) == Timespec(Second(event) % TWO31, 8 * Tick(event))
  {
    forall event | Fresh(ticks, event, t)
      ensures FrameTime(ticks, when) == Timespec(Second(event) % TWO31, 8 * Tick(event))
    {
      FrameTimeIsExact(event, t, when);
    }
  }

  /** The timestamping part of __wrn_rx_descriptor.  The bit that tells whether the
      two edge counters disagree is set in the seconds and cleared again. */
  method RxTime(t: seq<nat>, tsR: nat, tsF: nat) returns (ts: Timespec, ghost when: nat)
    requires Ordered(t) && Second(t[2]) - Second(t[0]) < TWO32
    requires tsR < 0x1000_0000 && tsF < 16
    ensures exists w :: t[0] <= w <= t[3] && ts == FrameTime(tsR, w)
    ensures t[0] <= when <= t[3] && ts == FrameTime(tsR, when)
  {
    hide Second, Tick;
    var counter, utc;
    counter, utc, when := ReadTime(t);
    if counter < tsR {
      utc := (utc - 1) % TWO32;
    }
    var sec := utc % TWO31;
    var diff := tsR % 16 - tsF;
    if diff == 1 || diff == -15 {
      sec := sec + TWO31;
    }
    var nsec := tsR * NSEC_PER_TICK;
    sec := sec % TWO31;
    nsec := nsec % TWO31;
    ts := Timespec(sec, nsec);
    assert ts == FrameTime(tsR, when);
  }

  // ----------------------------------------------------- the descriptor ring

  /** The fields of the three registers of a receive descriptor. */
  datatype RxDesc = RxDesc(empty: bool, error: bool, gotTs: bool, incorrect: bool,
                           tsR: nat, tsF: nat, offset: nat, len: nat)

  /** A frame as the hardware receives it. */
  datatype Frame = Frame(payload: seq<Byte>, error: bool, gotTs: bool, incorrect: bool, tsR: nat, tsF: nat)
  {
    predicate Good() { !error && gotTs }
    predicate Ok() { |payload| <= BUFFER && tsR < 0x1000_0000 && tsF < 16 }
  }

  /** A frame as it is handed to the network stack. */
  datatype Packet = Packet(payload: seq<Byte>, stamp: Option<Timespec>)

  function Goods(fs: seq<Frame>): seq<Frame> {
    if fs == [] then [] else Goods(fs[..|fs| - 1]) + if fs[|fs| - 1].Good() then [fs[|fs| - 1]] else []
  }

  lemma GoodsSnoc(fs: seq<Frame>, f: Frame)
    ensures Goods(fs + [f]) == Goods(fs) + if f.Good() then [f] else []
  {
  }

  /** How many of these frames came in with an error, or without a timestamp. */
  function Rejected(fs: seq<Frame>): nat {
    if fs == [] then 0
    else Rejected(fs[..|fs| - 1]) + if fs[|fs| - 1].error || !fs[|fs| - 1].gotTs then 1 else 0
  }

  /** Everything else is good, and nothing that is rejected is. */
  lemma {:induction false} GoodOrRejected(fs: seq<Frame>)
    ensures |Goods(fs)| + Rejected(fs) == |fs|
    ensures forall f :: f in Goods(fs) <==> f in fs && !f.error && f.gotTs
  {
    if fs != [] {
      var gs, f := fs[..|fs| - 1], fs[|fs| - 1];
      GoodOrRejected(gs);
      assert fs == gs + [f];
      GoodsSnoc(gs, f);
    }
  }

  lemma {:induction false} RejectedConcat(a: seq<Frame>, b: seq<Frame>)
    ensures Rejected(a + b) == Rejected(a) + Rejected(b)
  {
    if b == [] {
      assert a + b == a;
    } else {
      RejectedConcat(a, b[..|b| - 1]);
      assert (a + b)[..|a + b| - 1] == a + b[..|b| - 1];
    }
  }

  function Bytes(fs: seq<Frame>): nat {
    if fs == [] then 0 else Bytes(fs[..|fs| - 1]) + |fs[|fs| - 1].payload|
  }

  lemma BytesSnoc(fs: seq<Frame>, f: Frame)
    ensures Bytes(fs + [f]) == Bytes(fs) + |f.payload|
  {
  }

  /** A packet carries its frame, stamped at some instant of one of the clock reads
      unless the hardware disowned the timestamp. */
  ghost predicate Carries(p: Packet, f: Frame, t: seq<nat>) {
    && p.payload == f.payload
    && if f.incorrect then p.stamp == None
       else |t| == 4 && exists when :: t[0] <= when <= t[3] && p.stamp == Some(FrameTime(f.tsR, when))
  }

  lemma Carried(p: Packet, f: Frame, t: seq<nat>)
    requires Carries(p, f, t)
    ensures p.payload == f.payload && (p.stamp == None <==> f.incorrect)
  {
  }

  /** The bytes of a frame sit two bytes into the window of its descriptor. */
  ghost predicate InWindow(ram: seq<Word>, nr: nat, payload: seq<Byte>)
    requires |ram| == MEM_WORDS && nr < NR_DESC && |payload| <= BUFFER
  {
    var from := DescOffset(Rx, nr) / 4;
    Unpacked(ram[from..from + Words(|payload|)])[DDATA_OFFSET..DDATA_OFFSET + |payload|] == payload
  }

  ghost predicate Free(d: RxDesc, nr: nat) { d.empty && d.offset == DescOffset(Rx, nr) && d.len == BUFFER }

  ghost predicate Filled(d: RxDesc, nr: nat, f: Frame, ram: seq<Word>)
    requires |ram| == MEM_WORDS && nr < NR_DESC
  {
    && f.Ok() && !d.empty && d.offset == DescOffset(Rx, nr) && d.len == |f.payload|
    && d.error == f.error && d.gotTs == f.gotTs && d.incorrect == f.incorrect && d.tsR == f.tsR && d.tsF == f.tsF
    && InWindow(ram, nr, f.payload)
  }

  /** The ring: `pending` fills the descriptors from `next` on, the others are free. */
  ghost predicate Ring(rx: seq<RxDesc>, next: nat, pending: seq<Frame>, ram: seq<Word>)
    requires |ram| == MEM_WORDS
  {
    && |rx| == NR_DESC && next < NR_DESC && |pending| <= NR_DESC
    && forall i :: 0 <= i < NR_DESC ==>
         var k := (i + NR_DESC - next) % NR_DESC;
         if k < |pending| then Filled(rx[i], i, pending[k], ram) else Free(rx[i], i)
  }

  /** Handing over the first pending frame frees its descriptor and moves on. */
  lemma RingPop(rx: seq<RxDesc>, next: nat, pending: seq<Frame>, ram: seq<Word>, d: RxDesc)
    requires |ram| == MEM_WORDS && Ring(rx, next, pending, ram) && pending != [] && Free(d, next)
    ensures Ring(rx[next := d], (next + 1) % NR_DESC, pending[1..], ram)
  {
    hide Filled, Free;
    var rx', next' := rx[next := d], (next + 1) % NR_DESC;
    forall i | 0 <= i < |rx'|
      ensures var k := (i + NR_DESC - next') % NR_DESC;
              if k < |pending| - 1 then Filled(rx'[i], i, pending[1..][k], ram) else Free(rx'[i], i)
    {
      Rotated(i, next);
    }
  }

  lemma Rotated(i: nat, next: nat)
    requires i < NR_DESC && next < NR_DESC
    ensures var k, k' := (i + NR_DESC - next) % NR_DESC, (i + NR_DESC - (next + 1) % NR_DESC) % NR_DESC;
            if i == next then k == 0 && k' == NR_DESC - 1 else k' == k - 1
  {
  }

  /** The hardware fills the first free descriptor. */
  lemma RingPush(rx: seq<RxDesc>, next: nat, pending: seq<Frame>, ram: seq<Word>, d: RxDesc, f: Frame, ram': seq<Word>)
    requires |ram| == |ram'| == MEM_WORDS && Ring(rx, next, pending, ram) && |pending| < NR_DESC
    requires var i := (next + |pending|) % NR_DESC;
             && Filled(d, i, f, ram')
             && forall j :: 0 <= j < MEM_WORDS && !(DescOffset(Rx, i) <= 4 * j < DescOffset(Rx, i) + WINDOW) ==>
                  ram'[j] == ram[j]
    ensures Ring(rx[(next + |pending|) % NR_DESC := d], next, pending + [f], ram')
  {
    hide Filled, Free, DescOffset;
    var slot := (next + |pending|) % NR_DESC;
    var rx' := rx[slot := d];
    forall i | 0 <= i < |rx'|
      ensures var k := (i + NR_DESC - next) % NR_DESC;
              if k < |pending| + 1 then Filled(rx'[i], i, (pending + [f])[k], ram') else Free(rx'[i], i)
    {
      var k := (i + NR_DESC - next) % NR_DESC;
      if i != slot && k < |pending| {
        OtherWindow(rx[i], i, slot, pending[k], ram, ram');
      }
    }
  }

  lemma OtherWindow(d: RxDesc, i: nat, slot: nat, f: Frame, ram: seq<Word>, ram': seq<Word>)
    requires |ram| == |ram'| == MEM_WORDS && i < NR_DESC && slot < NR_DESC && i != slot && Filled(d, i, f, ram)
    requires forall j :: 0 <= j < MEM_WORDS && !(DescOffset(Rx, slot) <= 4 * j < DescOffset(Rx, slot) + WINDOW) ==>
               ram'[j] == ram[j]
    ensures Filled(d, i, f, ram')
  {
    hide Unpacked;
    WindowsDisjoint(Rx, i, Rx, slot);
    CopyFitsWindow(|f.payload|);
    var from := DescOffset(Rx, i) / 4;
    assert ram'[from..from + Words(|f.payload|)] == ram[from..from + Words(|f.payload|)];
  }

  /** Whether the descriptor at the head, or the one the hardware is about to use, is
      EMPTY tells how full the ring is. */
  lemma RingEnds(rx: seq<RxDesc>, next: nat, pending: seq<Frame>, ram: seq<Word>)
    requires |ram| == MEM_WORDS && Ring(rx, next, pending, ram)
    ensures |rx| == NR_DESC && next < NR_DESC && |pending| <= NR_DESC
    ensures rx[next].empty <==> pending == []
    ensures rx[(next + |pending|) % NR_DESC].empty <==> |pending| < NR_DESC
    ensures pending != [] ==> Filled(rx[next], next, pending[0], ram)
    ensures |pending| < NR_DESC ==> Free(rx[(next + |pending|) % NR_DESC], (next + |pending|) % NR_DESC)
  {
    hide InWindow, DescOffset;
    var slot := (next + |pending|) % NR_DESC;
    assert (next + NR_DESC - next) % NR_DESC == 0;
    assert (slot + NR_DESC - next) % NR_DESC == |pending| % NR_DESC;
  }

  /** What the hardware leaves in a descriptor it has filled. */
  function HwDesc(nr: nat, f: Frame): RxDesc {
    RxDesc(false, f.error, f.gotTs, f.incorrect, f.tsR, f.tsF, DescOffset(Rx, nr), |f.payload|)
  }

  lemma FrameStored(rx: seq<RxDesc>, next: nat, pending: seq<Frame>, ram: seq<Word>, f: Frame, ram': seq<Word>)
    requires |ram| == |ram'| == MEM_WORDS && Ring(rx, next, pending, ram) && |pending| < NR_DESC && f.Ok()
    requires var i := (next + |pending|) % NR_DESC;
             var from := DescOffset(Rx, i) / 4;
             && from + Words(|f.payload|) <= MEM_WORDS
             && Unpacked(ram'[from..from + Words(|f.payload|)])[DDATA_OFFSET..DDATA_OFFSET + |f.payload|] == f.payload
             && forall k :: 0 <= k < MEM_WORDS && !(from <= k < from + Words(|f.payload|)) ==> ram'[k] == ram[k]
    ensures Ring(rx[(next + |pending|) % NR_DESC := HwDesc((next + |pending|) % NR_DESC, f)], next, pending + [f], ram')
  {
    hide Ring, Unpacked, Words;
    var i := (next + |pending|) % NR_DESC;
    WindowsDisjoint(Rx, i, Rx, i);
    CopyFitsWindow(|f.payload|);
    StoredInWindow(ram', i, f.payload);
    FilledNow(HwDesc(i, f), i, f, ram');
    RingPush(rx, next, pending, ram, HwDesc(i, f), f, ram');
  }

  class Receiver {
    const ram: array<Word>
    var rx: seq<RxDesc>
    var hwNext: nat                 // where the hardware puts the next frame
    var nextRx: nat
    var delivered: seq<Packet>
    var packets: nat
    var bytes: nat
    var errors: nat
    ghost var arrived: seq<Frame>   // everything the hardware put into a descriptor so far
    ghost var handled: seq<Frame>   // what has been looked at of it
    ghost var pending: seq<Frame>   // ... and what has not
    ghost var clocks: seq<seq<nat>>  // the clock read of each delivered packet

    /** The initial state set up by the probe function (kernel/wr_nic/device.c). */
    constructor (ram: array<Word>)
      requires ram.Length == MEM_WORDS
      ensures Valid() && this.ram == ram && arrived == [] && delivered == []
      ensures forall i :: 0 <= i < NR_DESC ==> rx[i].empty && rx[i].offset == DescOffset(Rx, i) && rx[i].len == 2000
    {
      hide DescOffset, Filled;
      this.ram := ram;
      rx := seq(NR_DESC, i requires 0 <= i < NR_DESC =>
                  RxDesc(true, false, false, false, 0, 0, DescOffset(Rx, i), BUFFER));
      hwNext, nextRx, delivered, packets, bytes, errors := 0, 0, [], 0, 0, 0;
      arrived, handled, pending, clocks := [], [], [], [];
    }

    /** Every frame that came in is a packet, an error or pending: good frames have been
        delivered once each, in the order of arrival, with the time of their clock read. */
    ghost predicate Valid()
      reads this, ram
    {
      && ram.Length == MEM_WORDS
      && Ring(rx, nextRx, pending, ram[..])
      && hwNext == (nextRx + |pending|) % NR_DESC
      && arrived == handled + pending
      && Accounts(handled, delivered, clocks, packets, bytes, errors)
    }

    ghost function Journal(): Log
      reads this
    {
      Log(arrived, |handled|, clocks)
    }

    /** The hardware receives a frame: it fills the next descriptor if that is
        EMPTY, and has no use for the frame otherwise. */
    method HwReceive(f: Frame) returns (accepted: bool)
      requires Valid() && f.Ok()
      modifies this`rx, this`hwNext, this`pending, this`arrived, ram
      ensures Valid()
      ensures accepted <==> |old(pending)| < NR_DESC
      ensures pending == if accepted then old(pending) + [f] else old(pending)
      ensures arrived == if accepted then old(arrived) + [f] else old(arrived)
      ensures Journal() == Next(old(Journal()), Fill(f))
    {
      hide Filled, Free, Ring, Accounts;
      RingEnds(rx, nextRx, pending, ram[..]);
      var i := hwNext;
      accepted := rx[i].empty;
      if !accepted {
        return;
      }
      HwFill(i, f);
      hwNext := (i + 1) % NR_DESC;
      arrived, pending := arrived + [f], pending + [f];
    }

    /** The frame goes to the window of the descriptor, and its size and time into it. */
    method HwFill(i: nat, f: Frame)
      requires ram.Length == MEM_WORDS && Ring(rx, nextRx, pending, ram[..]) && |pending| < NR_DESC
      requires i == (nextRx + |pending|) % NR_DESC && f.Ok()
      modifies this`rx, ram
      ensures Ring(rx, nextRx, pending + [f], ram[..])
    {
      hide Filled, Ring, Unpacked, DescOffset, Words;
      RingEnds(rx, nextRx, pending, ram[..]);
      ghost var was := ram[..];
      WindowsDisjoint(Rx, i, Rx, i);
      CopyFitsWindow(|f.payload|);
      HwStore(ram, rx[i].offset / 4, f.payload);
      FrameStored(rx, nextRx, pending, was, f, ram[..]);
      rx := rx[i := HwDesc(i, f)];
    }

    /** __wrn_rx_descriptor, `t` being the instants of its clock read. */
    method RxDescriptor(desc: nat, ghost f: Frame, t: seq<nat>)
      requires ram.Length == MEM_WORDS && |rx| == NR_DESC && desc < NR_DESC && Filled(rx[desc], desc, f, ram[..])
      requires Ordered(t) && Second(t[2]) - Second(t[0]) < TWO32
      modifies this`rx, this`delivered, this`packets, this`bytes, this`errors
      ensures |rx| == NR_DESC && rx == old(rx)[desc := rx[desc]] && Free(rx[desc], desc)
      ensures f.Good() ==>
                && |delivered| == |old(delivered)| + 1 && delivered[..|old(delivered)|] == old(delivered)
                && Carries(delivered[|old(delivered)|], f, t)
                && packets == old(packets) + 1 && bytes == old(bytes) + |f.payload| && errors == old(errors)
      // the two flags decide: an error, or no timestamp, and the frame is only counted
      ensures f.error || !f.gotTs ==> delivered == old(delivered) && errors == old(errors) + 1
      ensures !f.error && f.gotTs ==>
                && |delivered| == |old(delivered)| + 1 && delivered[|old(delivered)|].payload == f.payload
                && (delivered[|old(delivered)|].stamp == None <==> f.incorrect)
                && errors == old(errors)
      // either way the hardware gets the descriptor back, with its window and room for a frame
      ensures rx[desc].empty && rx[desc].offset == DescOffset(Rx, desc) && rx[desc].len == 2000
      // a frame that came in less than a second before the end of the clock read has its own time
      ensures forall event :: f.Good() && !f.incorrect && Fresh(f.tsR, event, t) ==>
                delivered[|old(delivered)|].stamp == Some(Timespec(Second(event) % TWO31, 8 * Tick(event)))
      ensures !f.Good() ==>
                && delivered == old(delivered) && packets == old(packets) && bytes == old(bytes)
                && errors == old(errors) + 1
    {
      hide Unpacked, Second, InWindow;
      var r, offset := rx[desc], DescOffset(Rx, desc);
      if r.error || !r.gotTs {
        // the hardware may have it back, bad as the frame was
        rx := rx[desc := RxDesc(true, false, false, false, 0, 0, offset, BUFFER)];
        errors := errors + 1;
        return;
      }
      var payload := CopyFrame(ram, r.offset / 4, r.len, desc, f.payload);
      // the frame is safe: the hardware may have the descriptor back, with room for 2000 bytes
      rx := rx[desc := RxDesc(true, false, false, false, 0, 0, offset, BUFFER)];
      var ts, when := RxTime(t, r.tsR, r.tsF);
      var p := Packet(payload, if !r.incorrect then Some(ts) else None);
      packets := packets + 1;
      bytes := bytes + r.len;
      delivered := delivered + [p];
      StampIsExact(p, f, t);
    }

    /** One turn of the receive loop, if there is a frame to look at. */
    method HandleOne(t: seq<nat>) returns (more: bool)
      requires Valid()
      requires Ordered(t) && Second(t[2]) - Second(t[0]) < TWO32
      modifies this
      ensures Valid() && arrived == old(arrived)
      ensures more <==> old(pending) != []
      ensures !more ==> unchanged(this)
      ensures more ==> pending == old(pending)[1..] && handled == old(handled) + [old(pending)[0]]
      ensures Grown(old(delivered), old(clocks), delivered, clocks, [t])
      ensures Journal() == Next(old(Journal()), Look(t))
    {
      hide Filled, Free, Ring, Second, Tick, Ordered, Carries, Accounts, Fresh, Goods, Bytes, Grown, Next;
      RingEnds(rx, nextRx, pending, ram[..]);
      Counted(handled, delivered, clocks, packets, bytes, errors);
      GrownNone(delivered, clocks, [t]);
      NextLook(handled, pending, clocks, t);
      if rx[nextRx].empty {
        return false;
      }
      HandleFirst(t);
      more := true;
    }

    /** The rest of a turn that has found a frame. */
    method HandleFirst(t: seq<nat>)
      requires Valid() && pending != []
      requires Ordered(t) && Second(t[2]) - Second(t[0]) < TWO32
      modifies this`rx, this`delivered, this`packets, this`bytes, this`errors, this`clocks, this`handled, this`nextRx,
               this`pending
      ensures Valid()
      ensures pending == old(pending)[1..] && handled == old(handled) + [old(pending)[0]]
      ensures clocks == if old(pending)[0].Good() then old(clocks) + [t] else old(clocks)
      ensures Grown(old(delivered), old(clocks), delivered, clocks, [t])
    {
      hide Filled, Free, Ring, Second, Tick, Ordered, Carries, Accounts, Fresh, Goods, Bytes, Grown;
      RingEnds(rx, nextRx, pending, ram[..]);
      ghost var desc, rx0 := nextRx, rx;
      Deliver(nextRx, pending[0], t);
      RingPop(rx0, desc, pending, ram[..], rx[desc]);
      nextRx := (nextRx + 1) % NR_DESC;
      pending := pending[1..];
    }

    /** The descriptor at hand, and the books. */
    method Deliver(desc: nat, ghost f: Frame, t: seq<nat>)
      requires ram.Length == MEM_WORDS && |rx| == NR_DESC && desc < NR_DESC && Filled(rx[desc], desc, f, ram[..])
      requires Ordered(t) && Second(t[2]) - Second(t[0]) < TWO32
      requires Accounts(handled, delivered, clocks, packets, bytes, errors)
      modifies this`rx, this`delivered, this`packets, this`bytes, this`errors, this`clocks, this`handled
      ensures |rx| == NR_DESC && rx == old(rx)[desc := rx[desc]] && Free(rx[desc], desc)
      ensures handled == old(handled) + [f] && Accounts(handled, delivered, clocks, packets, bytes, errors)
      ensures clocks == if f.Good() then old(clocks) + [t] else old(clocks)
      ensures Grown(old(delivered), old(clocks), delivered, clocks, [t])
    {
      hide Filled, Free, Second, Tick, Ordered, Carries, Accounts, Fresh, Goods, Bytes, Grown;
      ghost var delivered0, clocks0, packets0, bytes0, errors0 := delivered, clocks, packets, bytes, errors;
      RxDescriptor(desc, f, t);
      clocks := if f.Good() then clocks + [t] else clocks;
      Accounted(handled, delivered0, clocks0, packets0, bytes0, errors0, f, delivered, packets, bytes, errors, t);
      handled := handled + [f];
    }

    /** wrn_rx_interrupt: everything that is pending is handed over, each good frame with
        the clock read of its own turn of the loop; the turn that finds nothing is the last. */
    method RxInterrupt(clock: seq<seq<nat>>)
      requires Valid() && |clock| == NR_DESC + 1
      requires forall t <- clock :: Ordered(t) && Second(t[2]) - Second(t[0]) < TWO32
      modifies this
      ensures Valid() && arrived == old(arrived) == handled && pending == []
      ensures errors == old(errors) + Rejected(old(pending))
      ensures packets == old(packets) + |old(pending)| - Rejected(old(pending))
      ensures Grown(old(delivered), old(clocks), delivered, clocks, clock)
      ensures Journal() == After(old(Journal()), Looks(clock), |old(pending)| + 1)
    {
      hide Ring, Second, Tick, Ordered, Accounts, Carries, Next, After, Grown, Goods, Looks;
      ghost var all, l, turns, d0, c0, had := pending, Journal(), Looks(clock), delivered, clocks, handled;
      ErrorsCounted(handled, delivered, clocks, packets, bytes, errors);
      AfterNone(l, turns);
      Counted(handled, delivered, clocks, packets, bytes, errors);
      GrownNone(delivered, clocks, clock);
      RingEnds(rx, nextRx, pending, ram[..]);
      var n, more := 0, true;
      while more
        invariant Valid() && arrived == old(arrived) && if more then 0 <= n <= |all| else n == |all| + 1
        invariant |pending| == if more then |all| - n else 0
        invariant Grown(d0, c0, delivered, clocks, clock)
        invariant Journal() == After(l, turns, n)
        decreases more, |pending|
      {
        ghost var d, c := delivered, clocks;
        more := HandleOne(clock[n]);
        GrownMore(d0, c0, d, c, delivered, clocks, clock, clock[n]);
        AfterOne(l, turns, n);
        n := n + 1;
      }
      ErrorsCounted(handled, delivered, clocks, packets, bytes, errors);
      RejectedConcat(had, all);
    }

    /** Any interleaving of frames coming in and turns of the receive loop: it does to the
        journal what the turns say, one after the other, and `taken` tells which of them
        did something.  At its end packets, errors and pending frames add up to the frames
        that came in, and the packets are the first good ones of them, in order, each with
        the time of the clock read that the journal has for it. */
    method Live(turns: seq<Turn>) returns (taken: seq<bool>)
      requires Valid() && forall x <- turns :: x.Ok()
      modifies this, ram
      ensures Valid() && |taken| == |turns|
      ensures Journal() == After(old(Journal()), turns, |turns|)
      ensures forall n :: 0 <= n < |turns| ==>
                (taken[n] <==> After(old(Journal()), turns, n + 1) != After(old(Journal()), turns, n))
      ensures packets + errors + |pending| == |arrived|
      ensures |old(clocks)| <= |clocks| && clocks[..|old(clocks)|] == old(clocks)
      ensures forall k :: |old(clocks)| <= k < |clocks| ==> Look(clocks[k]) in turns
      ensures |old(delivered)| <= |delivered| && delivered[..|old(delivered)|] == old(delivered)
      ensures |delivered| == |clocks| <= |Goods(arrived)|
      ensures forall k :: 0 <= k < |delivered| ==> Carries(delivered[k], Goods(arrived)[k], clocks[k])
      // the errors are the frames looked at that came in with an error or without a
      // timestamp, and no packet is made of such a frame
      ensures handled <= arrived && errors == Rejected(handled) && packets == |handled| - Rejected(handled)
      ensures forall k :: 0 <= k < |delivered| ==>
                var f := Goods(arrived)[k];
                && f in handled && !f.error && f.gotTs
                && delivered[k].payload == f.payload && (delivered[k].stamp == None <==> f.incorrect)
    {
      hide Ring, Second, Accounts, Carries, Goods, Next;
      taken := [];
      while |taken| < |turns|
        invariant |taken| <= |turns| && Valid()
        invariant Journal() == After(old(Journal()), turns, |taken|)
        invariant |old(delivered)| <= |delivered| && delivered[..|old(delivered)|] == old(delivered)
        invariant forall n :: 0 <= n < |taken| ==>
                    (taken[n] <==> After(old(Journal()), turns, n + 1) != After(old(Journal()), turns, n))
      {
        assert turns[|taken|] in turns;
        var did := Take(turns[|taken|]);
        taken := taken + [did];
      }
      ClocksOfTheRun(old(Journal()), turns, |turns|);
      Counted(handled, delivered, clocks, packets, bytes, errors);
      ErrorsCounted(handled, delivered, clocks, packets, bytes, errors);
      GoodsConcat(handled, pending);
      GoodOrRejected(handled);
      forall k | 0 <= k < |delivered|
        ensures Goods(arrived)[k] == Goods(handled)[k]
        ensures delivered[k].payload == Goods(arrived)[k].payload
        ensures delivered[k].stamp == None <==> Goods(arrived)[k].incorrect
      {
        Carried(delivered[k], Goods(handled)[k], clocks[k]);
      }
    }

    method Take(turn: Turn) returns (did: bool)
      requires Valid() && turn.Ok()
      modifies this, ram
      ensures Valid()
      ensures Journal() == Next(old(Journal()), turn) && (did <==> Journal() != old(Journal()))
      ensures |old(delivered)| <= |delivered| && delivered[..|old(delivered)|] == old(delivered)
    {
      hide Ring, Second, Accounts, Carries, Goods, Bytes;
      match turn {
        case Fill(f) => did := HwReceive(f);
        case Look(t) => did := HandleOne(t);
      }
    }

    /** A packet of any run whose clock read ended less than a second after its frame
        came in has the frame's own time. */
    lemma DeliveredOnTime(k: nat, event: nat)
      requires Valid() && k < |delivered|
      requires !Goods(handled)[k].incorrect && Fresh(Goods(handled)[k].tsR, event, clocks[k])
      ensures delivered[k].stamp == Some(Timespec(Second(event) % TWO31, 8 * Tick(event)))
    {
      hide Second, Tick, FrameTime, Ring, Bytes;
      StampIsExact(delivered[k], Goods(handled)[k], clocks[k]);
    }
  }

  /** A step of a run: a frame comes in, or the receive loop makes one turn. */
  datatype Turn = Fill(f: Frame) | Look(t: seq<nat>)
  {
    ghost predicate Ok() {
      match this
      case Fill(f) => f.Ok()
      case Look(t) => Ordered(t) && Second(t[2]) - Second(t[0]) < TWO32
    }
  }

  function Looks(clock: seq<seq<nat>>): (turns: seq<Turn>)
    ensures |turns| == |clock| && forall n :: 0 <= n < |clock| ==> turns[n] == Look(clock[n])
  {
    seq(|clock|, n requires 0 <= n < |clock| => Look(clock[n]))
  }

  /** What a run amounts to: the frames that found room, how many of them have been
      handled, and the clock reads that went with the good ones. */
  datatype Log = Log(arrived: seq<Frame>, handled: nat, clocks: seq<seq<nat>>)

  /** A frame is kept if fewer than eight wait; a turn of the loop handles the first that
      waits, if there is one. */
  function Next(l: Log, turn: Turn): (l': Log)
    requires l.handled <= |l.arrived|
    ensures l'.handled <= |l'.arrived|
  {
    match turn
    case Fill(f) => if |l.arrived| - l.handled < NR_DESC then l.(arrived := l.arrived + [f]) else l
    case Look(t) =>
      if l.handled == |l.arrived| then l
      else l.(handled := l.handled + 1, clocks := if l.arrived[l.handled].Good() then l.clocks + [t] else l.clocks)
  }

  lemma NextLook(handled: seq<Frame>, pending: seq<Frame>, clocks: seq<seq<nat>>, t: seq<nat>)
    ensures Next(Log(handled + pending, |handled|, clocks), Look(t))
         == if pending == [] then Log(handled + pending, |handled|, clocks)
            else Log(handled + pending, |handled| + 1, if pending[0].Good() then clocks + [t] else clocks)
  {
  }

  /** The journal after the first `n` turns. */
  function After(l: Log, turns: seq<Turn>, n: nat): (l': Log)
    requires l.handled <= |l.arrived| && n <= |turns|
    ensures l'.handled <= |l'.arrived|
  {
    if n == 0 then l else Next(After(l, turns, n - 1), turns[n - 1])
  }

  lemma AfterNone(l: Log, turns: seq<Turn>)
    requires l.handled <= |l.arrived|
    ensures After(l, turns, 0) == l
  {
  }

  lemma AfterOne(l: Log, turns: seq<Turn>, n: nat)
    requires l.handled <= |l.arrived| && n < |turns|
    ensures After(l, turns, n + 1) == Next(After(l, turns, n), turns[n])
  {
  }

  lemma {:induction false} OneReadEach(l: Log, turns: seq<Turn>, n: nat)
    requires l.handled <= |l.arrived| && n <= |turns| && |l.clocks| == |Goods(l.arrived[..l.handled])|
    ensures var u := After(l, turns, n); |u.clocks| == |Goods(u.arrived[..u.handled])|
  {
    hide Goods;
    if n > 0 {
      OneReadEach(l, turns, n - 1);
      var u := After(l, turns, n - 1);
      match turns[n - 1]
      case Fill(f) =>
        assert (u.arrived + [f])[..u.handled] == u.arrived[..u.handled];
      case Look(t) =>
        assert turns[n - 1] == Look(t);
        if u.handled < |u.arrived| {
          assert u.arrived[..u.handled + 1] == u.arrived[..u.handled] + [u.arrived[u.handled]];
          GoodsSnoc(u.arrived[..u.handled], u.arrived[u.handled]);
        }
    }
  }

  /** Turn `m` read the clock for good frame number `k`, which was the first one waiting. */
  ghost predicate ReadFor(l: Log, turns: seq<Turn>, m: nat, k: nat, t: seq<nat>)
    requires l.handled <= |l.arrived| && m < |turns|
  {
    var u := After(l, turns, m);
    && turns[m] == Look(t) && u.handled < |u.arrived| && u.arrived[u.handled].Good()
    && |Goods(u.arrived[..u.handled])| == k
  }

  /** Every clock read that a run adds to the journal is that of the turn that handled
      its frame. */
  lemma {:induction false} ReadsOfTheRun(l: Log, turns: seq<Turn>, n: nat, k: nat)
    requires l.handled <= |l.arrived| && n <= |turns|
    requires |l.clocks| == |Goods(l.arrived[..l.handled])| <= k < |After(l, turns, n).clocks|
    ensures exists m :: 0 <= m < n && ReadFor(l, turns, m, k, After(l, turns, n).clocks[k])
  {
    hide Goods;
    OneReadEach(l, turns, n - 1);
    if k < |After(l, turns, n - 1).clocks| {
      ReadsOfTheRun(l, turns, n - 1, k);
      assert After(l, turns, n).clocks[k] == After(l, turns, n - 1).clocks[k];
    } else {
      assert ReadFor(l, turns, n - 1, k, After(l, turns, n).clocks[k]);
    }
  }

  lemma {:induction false} ClocksOfTheRun(l: Log, turns: seq<Turn>, n: nat)
    requires l.handled <= |l.arrived| && n <= |turns|
    ensures var u := After(l, turns, n);
            && |l.clocks| <= |u.clocks| && u.clocks[..|l.clocks|] == l.clocks
            && forall k :: |l.clocks| <= k < |u.clocks| ==> Look(u.clocks[k]) in turns
  {
    if n > 0 {
      ClocksOfTheRun(l, turns, n - 1);
      assert turns[n - 1] in turns;
    }
  }

  /** The frame in a window, by way of a socket buffer. */
  method CopyFrame(ram: array<Word>, from: nat, len: nat, ghost nr: nat, ghost payload: seq<Byte>)
    returns (data: seq<Byte>)
    requires ram.Length == MEM_WORDS && nr < NR_DESC && |payload| == len <= BUFFER
    requires from == DescOffset(Rx, nr) / 4 && InWindow(ram[..], nr, payload)
    ensures data == payload
  {
    hide Unpacked;
    CopyFitsWindow(len);
    WindowsDisjoint(Rx, nr, Rx, nr);
    var skb := new Byte[len + 16](_ => 0);
    CopyIn(skb, DDATA_OFFSET, ram, from, len);
    data := skb[DDATA_OFFSET..DDATA_OFFSET + len];
    SliceOfSlice(skb[..], 0, 4 * Words(len), DDATA_OFFSET, DDATA_OFFSET + len);
    assert skb[..][0..4 * Words(len)] == skb[0..4 * Words(len)];
    assert ram[..][from..from + Words(len)] == ram[from..from + Words(len)];
  }

  /** The hardware stores a frame, two bytes into its window. */
  method HwStore(ram: array<Word>, from: nat, payload: seq<Byte>)
    requires from + Words(|payload|) <= ram.Length
    modifies ram
    ensures Unpacked(ram[from..from + Words(|payload|)])[DDATA_OFFSET..DDATA_OFFSET + |payload|] == payload
    ensures forall k :: 0 <= k < ram.Length && !(from <= k < from + Words(|payload|)) ==> ram[k] == old(ram[k])
  {
    hide Packed, Unpacked;
    CopyFitsWindow(|payload|);
    var n := Words(|payload|);
    var bytes := [0, 0] + payload + seq(4 * n - |payload| - DDATA_OFFSET, _ => 0);
    var words := Packed(bytes);
    forall k | 0 <= k < n {
      ram[from + k] := words[k];
    }
    assert ram[from..from + n] == words;
    UnpackPacked(bytes);
  }

  lemma StoredInWindow(ram: seq<Word>, nr: nat, payload: seq<Byte>)
    requires |ram| == MEM_WORDS && nr < NR_DESC && |payload| <= BUFFER
    ensures InWindow(ram, nr, payload) <==>
            var from := DescOffset(Rx, nr) / 4;
            Unpacked(ram[from..from + Words(|payload|)])[DDATA_OFFSET..DDATA_OFFSET + |payload|] == payload
  {
  }

  lemma FilledNow(d: RxDesc, nr: nat, f: Frame, ram: seq<Word>)
    requires |ram| == MEM_WORDS && nr < NR_DESC && f.Ok()
    requires d == HwDesc(nr, f)
    requires InWindow(ram, nr, f.payload)
    ensures Filled(d, nr, f, ram)
  {
  }

  lemma StampIsExact(p: Packet, f: Frame, t: seq<nat>)
    requires Carries(p, f, t)
    ensures forall event :: !f.incorrect && Fresh(f.tsR, event, t) ==>
              p.stamp == Some(Timespec(Second(event) % TWO31, 8 * Tick(event)))
  {
    if event :| !f.incorrect && Fresh(f.tsR, event, t) {
      var when :| t[0] <= when <= t[3] && p.stamp == Some(FrameTime(f.tsR, when));
      FreshTimeIsExact(f.tsR, t, when);
    }
  }

  /** Good frames have been delivered once each, in order and with the time of their
      clock read, and the counters agree. */
  ghost predicate Accounts(handled: seq<Frame>, delivered: seq<Packet>, clocks: seq<seq<nat>>,
                           packets: nat, bytes: nat, errors: nat)
  {
    var goods := Goods(handled);
    && |delivered| == |clocks| == |goods|
    && (forall k :: 0 <= k < |goods| ==> Carries(delivered[k], goods[k], clocks[k]))
    && packets == |goods| && packets + errors == |handled| && bytes == Bytes(goods)
  }

  /** Packets have been added, with the times of some of the given clock reads. */
  ghost predicate Grown(delivered: seq<Packet>, clocks: seq<seq<nat>>, delivered': seq<Packet>, clocks': seq<seq<nat>>,
                        clock: seq<seq<nat>>)
  {
    && |delivered| == |clocks| <= |delivered'| == |clocks'|
    && delivered'[..|delivered|] == delivered && clocks'[..|clocks|] == clocks
    && forall k :: |clocks| <= k < |clocks'| ==> clocks'[k] in clock
  }

  lemma GrownNone(delivered: seq<Packet>, clocks: seq<seq<nat>>, clock: seq<seq<nat>>)
    requires |delivered| == |clocks|
    ensures Grown(delivered, clocks, delivered, clocks, clock)
  {
  }

  lemma GrownMore(delivered: seq<Packet>, clocks: seq<seq<nat>>, delivered': seq<Packet>, clocks': seq<seq<nat>>,
                  delivered'': seq<Packet>, clocks'': seq<seq<nat>>, clock: seq<seq<nat>>, t: seq<nat>)
    requires Grown(delivered, clocks, delivered', clocks', clock) && t in clock
    requires Grown(delivered', clocks', delivered'', clocks'', [t])
    ensures Grown(delivered, clocks, delivered'', clocks'', clock)
  {
  }

  lemma {:induction false} GoodsConcat(a: seq<Frame>, b: seq<Frame>)
    ensures Goods(a + b) == Goods(a) + Goods(b)
  {
    if b == [] {
      assert a + b == a;
    } else {
      var c, f := b[..|b| - 1], b[|b| - 1];
      GoodsConcat(a, c);
      assert (a + b)[..|a + b| - 1] == a + c;
      Assoc(Goods(a), Goods(c), if f.Good() then [f] else []);
    }
  }

  lemma Counted(handled: seq<Frame>, delivered: seq<Packet>, clocks: seq<seq<nat>>, packets: nat, bytes: nat,
                errors: nat)
    requires Accounts(handled, delivered, clocks, packets, bytes, errors)
    ensures |delivered| == |clocks| == |Goods(handled)| && packets + errors == |handled|
    ensures forall k :: 0 <= k < |delivered| ==> Carries(delivered[k], Goods(handled)[k], clocks[k])
  {
  }

  lemma ErrorsCounted(handled: seq<Frame>, delivered: seq<Packet>, clocks: seq<seq<nat>>, packets: nat, bytes: nat,
                      errors: nat)
    requires Accounts(handled, delivered, clocks, packets, bytes, errors)
    ensures errors == Rejected(handled) && packets == |handled| - Rejected(handled) == |delivered|
  {
    GoodOrRejected(handled);
  }

  lemma Accounted(handled: seq<Frame>, delivered: seq<Packet>, clocks: seq<seq<nat>>, packets: nat, bytes: nat,
                  errors: nat, f: Frame, delivered': seq<Packet>, packets': nat, bytes': nat, errors': nat, t: seq<nat>)
    requires Accounts(handled, delivered, clocks, packets, bytes, errors)
    requires f.Good() ==>
               && |delivered'| == |delivered| + 1 && delivered'[..|delivered|] == delivered
               && Carries(delivered'[|delivered|], f, t)
               && packets' == packets + 1 && bytes' == bytes + |f.payload| && errors' == errors
    requires !f.Good() ==>
               delivered' == delivered && packets' == packets && bytes' == bytes && errors' == errors + 1
    ensures var clocks' := if f.Good() then clocks + [t] else clocks;
            && Accounts(handled + [f], delivered', clocks', packets', bytes', errors')
            && Grown(delivered, clocks, delivered', clocks', [t])
  {
    hide Carries, Goods, Bytes;
    GoodsSnoc(handled, f);
    BytesSnoc(Goods(handled), f);
    if f.Good() {
      assert forall k :: 0 <= k < |delivered| ==> delivered'[k] == delivered'[..|delivered|][k];
    } else {
      assert Goods(handled) + [] == Goods(handled);
    }
  }
}
