/** The low-level FPGA loader (kernel/loader-ll.c) beside a model of the GN4124's FPGA
configuration loader: the driver's register traffic is recorded, and what the FPGA
receives is read back out of that record. */
module LoaderLl {
  import opened Common

  const EIO := 5

  // --------------------------------------------------------------- bytes and words

  /** reverse_bits8 */
  function ReverseBits8(x: bv8): bv8 {
    var a := ((x >> 1) & 0x55) | ((x & 0x55) << 1);
    var b := ((a >> 2) & 0x33) | ((a & 0x33) << 2);
    ((b >> 4) & 0x0f) | ((b & 0x0f) << 4)
  }

  predicate Bit(x: bv8, k: nat)
    requires k < 8
  {
    (x >> k) & 1 == 1
  }

  /** Bit k comes out as bit 7-k, so that two reversals cancel. */
  lemma ReverseBits8Bits(x: bv8, k: nat)
    requires k < 8
    ensures Bit(ReverseBits8(x), k) == Bit(x, 7 - k)
  {
    if k == 0 {} else if k == 1 {} else if k == 2 {} else if k == 3 {}
    else if k == 4 {} else if k == 5 {} else if k == 6 {} else { assert k == 7; }
  }

  /** Every byte of a buffer reversed. */
  function Flip(s: seq<bv8>): (r: seq<bv8>)
    ensures |r| == |s| && forall i :: 0 <= i < |s| ==> r[i] == ReverseBits8(s[i])
  {
    seq(|s|, i requires 0 <= i < |s| => ReverseBits8(s[i]))
  }

  /** Reversing the bits again gives the image back. */
  lemma FlipTwice(s: seq<bv8>)
    ensures Flip(Flip(s)) == s
  {
  }

  /** The 32-bit value of four bytes in memory, lowest address first. */
  function Word(a: bv8, b: bv8, c: bv8, d: bv8): bv32 {
    (a as bv32) | ((b as bv32) << 8) | ((c as bv32) << 16) | ((d as bv32) << 24)
  }

  /** The bytes of a word in the order in which the FPGA is given them. */
  function Bytes(w: bv32): (r: seq<bv8>)
    ensures |r| == 4
  {
    [(w & 0xff) as bv8, ((w >> 8) & 0xff) as bv8, ((w >> 16) & 0xff) as bv8, (w >> 24) as bv8]
  }

  lemma BytesOfWord(a: bv8, b: bv8, c: bv8, d: bv8)
    ensures Bytes(Word(a, b, c, d)) == [a, b, c, d]
  {
  }

  /** unaligned_bitswap_le32, on a little-endian machine */
  method UnalignedBitswapLe32(data: seq<bv8>, at: nat) returns (w: bv32)
    requires at + 4 <= |data|
    ensures Bytes(w) == Flip(data[at..at + 4])
  {
    hide ReverseBits8, Word, Bytes;
    var a, b := ReverseBits8(data[at]), ReverseBits8(data[at + 1]);
    var c, d := ReverseBits8(data[at + 2]), ReverseBits8(data[at + 3]);
    w := Word(a, b, c, d);
    BytesOfWord(a, b, c, d);
  }

  // ------------------------------------------------------------- register traffic

  datatype Reg = ClkDiv | Ctrl | Irq | TimerCtrl | Timer0 | Timer1 | Timer20 | Timer21 | En

  /** Bits 3, 2 and 5 of FCL_IRQ: configuration done, configuration error, and FIFO
      more than half full. */
  datatype Status = Status(done: bool, error: bool, busy: bool)

  /** One access: a register write, a word into the FIFO, or a look at FCL_IRQ (for
      errors, or while waiting for room). */
  datatype Event = Put(reg: Reg, value: nat) | Store(word: bv32) | Check(status: Status) | Poll(status: Status)

  /** What an observer of the traffic knows: the registers written since the last reset and
      the CTRL word that has started the state machine since (0 if none has); the words
      stored since it was started, and how many were stored to no avail; how many there were
      since the FIFO was last seen half empty (and the most there ever were), the same since
      the last look for errors; how often FCL_IRQ was read, whether the FPGA reported
      completion after some word, and whether it reported an error before that. */
  datatype Seen = Seen(regs: Option<map<Reg, nat>>, start: nat, words: seq<bv32>, lost: nat, since: nat, peak: nat,
                       blind: nat, worst: nat, looks: nat, done: bool, alarm: bool)

  /** The CTRL word that resets the loader. */
  const RESET := 0x40

  predicate Holds(regs: map<Reg, nat>, reg: Reg, value: nat) { reg in regs && regs[reg] == value }

  /** The loader is ready to be started: nothing is pending, the timers are off, with the
      pulse width and the delay before data and clock in place, and the outputs are on. */
  predicate SetUp(regs: map<Reg, nat>) {
    && Holds(regs, Irq, 0) && Holds(regs, ClkDiv, 0) && Holds(regs, TimerCtrl, 0)
    && Holds(regs, Timer0, 0x10) && Holds(regs, Timer1, 0) && Holds(regs, Timer20, 0x08) && Holds(regs, Timer21, 0)
    && Holds(regs, En, 0x17)
  }

  /** A CTRL word that starts the state machine: the one that is there, with bit 0 set; but
      for bits 4 and 5 it is 0x107. */
  predicate Starts(regs: map<Reg, nat>, value: nat) {
    Ctrl in regs && value == regs[Ctrl] + 1 && value == 0x107 + 16 * (value / 16 % 4)
  }

  /** A register write.  A reset forgets everything; before it, and until it is released,
      only CTRL is taken. */
  function Written(s: Seen, reg: Reg, value: nat): Seen {
    if reg == Ctrl && value == RESET then s.(regs := Some(map[Ctrl := RESET]), start := 0)
    else if s.regs.None? || (reg != Ctrl && Holds(s.regs.value, Ctrl, RESET)) then s
    else s.(regs := Some(s.regs.value[reg := value]),
            start := if reg == Ctrl && SetUp(s.regs.value) && Starts(s.regs.value, value) then value else s.start)
  }

  function Room(s: Seen, status: Status): Seen {
    s.(looks := s.looks + 1, since := if status.busy then s.since else 0)
  }

  function Notice(s: Seen, e: Event): Seen {
    match e
    case Put(reg, value) => Written(s, reg, value)
    case Store(w) =>
      var t := s.(since := s.since + 1, peak := if s.peak > s.since then s.peak else s.since + 1,
                  blind := s.blind + 1, worst := if s.worst > s.blind then s.worst else s.blind + 1);
      if s.start == 0 then t.(lost := s.lost + 1) else t.(words := s.words + [w])
    case Poll(status) => Room(s, status)
    case Check(status) =>
      var finished := status.done && s.words != [];
      Room(s, status).(blind := 0, done := s.done || finished,
                       alarm := s.alarm || (status.error && !s.done && !finished))
  }

  function Watch(t: seq<Event>): Seen {
    if t == [] then Seen(None, 0, [], 0, 0, 0, 0, 0, 0, false, false) else Notice(Watch(t[..|t| - 1]), t[|t| - 1])
  }

  lemma WatchOne(t: seq<Event>, e: Event)
    ensures Watch(t + [e]) == Notice(Watch(t), e)
  {
  }

  /** Look number `i` shows that the FPGA is done, and it has been given something. */
  ghost predicate Completes(t: seq<Event>, i: nat) {
    i < |t| && t[i].Check? && t[i].status.done && Watch(t[..i]).words != []
  }

  /** It shows an error, and the FPGA was not done by then. */
  ghost predicate Raises(t: seq<Event>, i: nat) {
    i < |t| && t[i].Check? && t[i].status.error && forall j :: 0 <= j <= i ==> !Completes(t, j)
  }

  /** What "done" and "alarm" come to, look by look. */
  lemma {:induction false} AlarmMeans(t: seq<Event>)
    ensures Watch(t).done <==> exists i :: Completes(t, i)
    ensures Watch(t).alarm <==> exists i :: Raises(t, i)
    decreases |t|
  {
    hide Watch;
    if t == [] {
      NothingSeen();
    } else {
      var u, n := t[..|t| - 1], |t| - 1;
      AlarmMeans(u);
      OneLook(t);
      forall i | 0 <= i < n
        ensures (Completes(t, i) <==> Completes(u, i)) && (Raises(t, i) <==> Raises(u, i))
      {
        SameLooks(t, i);
      }
      assert (exists i :: Completes(t, i)) <==> (exists i :: Completes(u, i)) || Completes(t, n) by {
        forall i | Completes(u, i) ensures Completes(t, i) {}
        forall i | Completes(t, i) ensures i == n || Completes(u, i) {}
      }
      assert Raises(t, n) <==> t[n].Check? && t[n].status.error && !exists i :: Completes(t, i) by {
        forall i: nat | Completes(t, i) ensures i <= n {}
      }
      assert (exists i :: Raises(t, i)) <==> (exists i :: Raises(u, i)) || Raises(t, n) by {
        forall i | Raises(u, i) ensures Raises(t, i) {}
        forall i | Raises(t, i) ensures i == n || Raises(u, i) {}
      }
    }
  }

  lemma NothingSeen()
    ensures !Watch([]).done && !Watch([]).alarm
  {
  }

  lemma SameLooks(t: seq<Event>, i: nat)
    requires i < |t| - 1
    ensures Completes(t, i) <==> Completes(t[..|t| - 1], i)
    ensures Raises(t, i) <==> Raises(t[..|t| - 1], i)
  {
    hide Watch;
    var u := t[..|t| - 1];
    assert t[..i] == u[..i];
    forall j | 0 <= j <= i
      ensures Completes(t, j) <==> Completes(u, j)
    {
      assert t[..j] == u[..j];
    }
    assert Raises(t, i) ==> forall j :: 0 <= j <= i ==> !Completes(u, j);
  }

  lemma OneLook(t: seq<Event>)
    requires t != []
    ensures var u, n := t[..|t| - 1], |t| - 1;
            && (Watch(t).done <==> Watch(u).done || Completes(t, n))
            && (Watch(t).alarm <==> Watch(u).alarm ||
                                    (t[n].Check? && t[n].status.error && !Watch(u).done && !Completes(t, n)))
  {
    hide SetUp, Starts, Holds;
  }

  /** The bytes held by a sequence of FIFO words. */
  function Spill(words: seq<bv32>): (r: seq<bv8>)
    ensures |r| == 4 * |words|
  {
    if words == [] then [] else Spill(words[..|words| - 1]) + Bytes(words[|words| - 1])
  }

  /** Bits 4 and 5 of the starting CTRL word: how many bytes of the last word to drop. */
  function Surplus(s: Seen): nat { (s.start / 16) % 4 }

  /** What the FPGA is configured with. */
  function Received(t: seq<Event>): seq<bv8>
    requires Surplus(Watch(t)) <= |Spill(Watch(t).words)|
  {
    var b := Spill(Watch(t).words);
    b[..|b| - Surplus(Watch(t))]
  }

  // -------------------------------------------------------------- the FIFO's depth

  /** The most words a FIFO can hold after this traffic, if it drains only when it has
      to: half its depth whenever it was seen not to be more than half full. */
  function Level(t: seq<Event>, depth: nat): nat {
    if t == [] then 0
    else
      var level := Level(t[..|t| - 1], depth);
      match t[|t| - 1]
      case Put(_, _) => level
      case Store(_) => level + 1
      case Check(status) => if !status.busy && level > depth / 2 then depth / 2 else level
      case Poll(status) => if !status.busy && level > depth / 2 then depth / 2 else level
  }

  lemma {:induction false} LevelBound(t: seq<Event>, depth: nat)
    ensures Level(t, depth) <= depth / 2 + Watch(t).since
    ensures Watch(t).since <= Watch(t).peak
    decreases |t|
  {
    hide SetUp, Starts, Holds;
    if t != [] {
      LevelBound(t[..|t| - 1], depth);
    }
  }

  lemma PeakOne(t: seq<Event>, e: Event)
    ensures Watch(t).peak <= Watch(t + [e]).peak
  {
    hide SetUp, Starts, Holds;
    WatchOne(t, e);
  }

  lemma {:induction false} PeakGrows(t: seq<Event>, n: nat)
    requires n <= |t|
    ensures Watch(t[..n]).peak <= Watch(t).peak
    decreases |t| - n
  {
    hide Watch;
    if n == |t| {
      assert t[..n] == t;
    } else {
      PeakGrows(t, n + 1);
      PeakOne(t[..n], t[n]);
      assert t[..n + 1] == t[..n] + [t[n]];
    }
  }

  /** Chunks of 32 words never overflow a FIFO of 63 words or more, at any moment of
      the load and however slowly it drains. */
  lemma NeverOverflows(t: seq<Event>, depth: nat, n: nat)
    requires Watch(t).peak <= 32 && depth >= 63 && n <= |t|
    ensures Level(t[..n], depth) <= depth
  {
    LevelBound(t[..n], depth);
    PeakGrows(t, n);
  }

  // --------------------------------------------------------------------- the driver

  /** The CTRL word chosen by the switch on size8 & 3. */
  function CtrlWord(size8: int): nat {
    match size8 % 4
    case 3 => 0x116
    case 2 => 0x126
    case 1 => 0x136
    case _ => 0x106
  }

  /** (size8 + 3) >> 2, as a number of words to store */
  function WordCount(size8: int): (n: nat)
    ensures size8 <= 0 ==> n == 0
    ensures size8 > 0 ==> size8 <= 4 * n < size8 + 4
  {
    if size8 + 3 < 0 then 0 else (size8 + 3) / 4
  }

  /** The register writes before the first word. */
  function Prologue(size8: int): seq<Event> {
    [Put(ClkDiv, 0), Put(Ctrl, 0x40), Put(Ctrl, 0), Put(Irq, 0), Put(Ctrl, CtrlWord(size8)), Put(ClkDiv, 0),
     Put(TimerCtrl, 0), Put(Timer0, 0x10), Put(Timer1, 0), Put(Timer20, 0x08), Put(Timer21, 0), Put(En, 0x17),
     Put(Ctrl, CtrlWord(size8) + 1)]
  }

  /** Where the load stands after `wrote` words: they are the image's, in order. */
  ghost predicate Fed(t: seq<Event>, data: seq<bv8>, size8: int, wrote: nat, done: bool)
    requires 4 * wrote <= |data|
  {
    var s := Watch(t);
    && Prologue(size8) <= t
    && s.start == CtrlWord(size8) + 1 && s.lost == 0
    && |s.words| == wrote && Spill(s.words) == Flip(data[..4 * wrote])
    && s.peak <= 32 && s.since <= 32 && s.worst <= 32 && s.blind <= 32
    && s.done == done && !s.alarm
  }

  lemma WatchNext(t: seq<Event>, n: nat)
    requires n < |t|
    ensures Watch(t[..n + 1]) == Notice(Watch(t[..n]), t[n])
  {
    hide Notice;
    WatchOne(t[..n], t[n]);
    assert t[..n + 1] == t[..n] + [t[n]];
  }

  /** After the reset has been released. */
  lemma ResetDone(size8: int)
    ensures var s := Watch(Prologue(size8)[..5]);
            && s == Watch([]).(regs := s.regs) && s.regs.Some?
            && Holds(s.regs.value, Irq, 0) && Holds(s.regs.value, Ctrl, CtrlWord(size8))
  {
    hide Watch, CtrlWord, SetUp;
    var t := Prologue(size8);
    assert t[..0] == [];
    assert Watch([]) == Seen(None, 0, [], 0, 0, 0, 0, 0, 0, false, false) by {
      WatchNone();
    }
    CtrlWords(size8);
    WatchNext(t, 0);
    WatchNext(t, 1);
    WatchNext(t, 2);
    WatchNext(t, 3);
    WatchNext(t, 4);
  }

  lemma WatchNone()
    ensures Watch([]) == Seen(None, 0, [], 0, 0, 0, 0, 0, 0, false, false)
  {
  }

  lemma CtrlWords(size8: int)
    ensures CtrlWord(size8) + 1 == 0x107 + 16 * (-size8 % 4)
    ensures (CtrlWord(size8) + 1) / 16 % 4 == -size8 % 4
  {
  }

  /** One more register, once the reset has been released. */
  lemma OneRegister(t: seq<Event>, n: nat, reg: Reg, value: nat, ctrl: nat)
    requires n < |t| && t[n] == Put(reg, value) && reg != Ctrl && ctrl != RESET
    requires var s := Watch(t[..n]);
             s == Watch([]).(regs := s.regs) && s.regs.Some? && Holds(s.regs.value, Ctrl, ctrl)
    ensures var s := Watch(t[..n + 1]);
            && s == Watch([]).(regs := s.regs) && s.regs.Some? && Holds(s.regs.value, Ctrl, ctrl)
            && s.regs.value == Watch(t[..n]).regs.value[reg := value]
  {
    hide Watch, SetUp;
    WatchNext(t, n);
  }

  /** Half of the registers. */
  lemma HalfSetUp(size8: int)
    ensures var s := Watch(Prologue(size8)[..9]);
            && s == Watch([]).(regs := s.regs) && s.regs.Some? && Holds(s.regs.value, Ctrl, CtrlWord(size8))
            && Holds(s.regs.value, Irq, 0) && Holds(s.regs.value, ClkDiv, 0) && Holds(s.regs.value, TimerCtrl, 0)
            && Holds(s.regs.value, Timer0, 0x10) && Holds(s.regs.value, Timer1, 0)
  {
    hide Watch, CtrlWord;
    var t, ctrl := Prologue(size8), CtrlWord(size8);
    CtrlWords(size8);
    ResetDone(size8);
    OneRegister(t, 5, ClkDiv, 0, ctrl);
    OneRegister(t, 6, TimerCtrl, 0, ctrl);
    OneRegister(t, 7, Timer0, 0x10, ctrl);
    OneRegister(t, 8, Timer1, 0, ctrl);
  }

  /** Before the state machine is started. */
  lemma AllSetUp(size8: int)
    ensures var s := Watch(Prologue(size8)[..12]);
            && s == Watch([]).(regs := s.regs) && s.regs.Some?
            && SetUp(s.regs.value) && Holds(s.regs.value, Ctrl, CtrlWord(size8))
  {
    hide Watch, CtrlWord;
    var t, ctrl := Prologue(size8), CtrlWord(size8);
    CtrlWords(size8);
    HalfSetUp(size8);
    OneRegister(t, 9, Timer20, 0x08, ctrl);
    OneRegister(t, 10, Timer21, 0, ctrl);
    OneRegister(t, 11, En, 0x17, ctrl);
  }

  lemma PrologueIsFed(data: seq<bv8>, size8: int)
    ensures Fed(Prologue(size8), data, size8, 0, false)
    ensures Watch(Prologue(size8)).looks == 0
    ensures var s := Watch(Prologue(size8)); s.regs.Some? && SetUp(s.regs.value)
  {
    hide Watch, CtrlWord;
    var t := Prologue(size8);
    AllSetUp(size8);
    CtrlWords(size8);
    WatchNone();
    WatchNext(t, 12);
    assert t[..13] == t && data[..4 * 0] == [];
  }

  /** Register writes store nothing and read nothing. */
  lemma {:induction false} PutsOnly(t: seq<Event>)
    requires forall i :: 0 <= i < |t| ==> t[i].Put?
    ensures Watch(t) == Watch([]).(start := Watch(t).start, regs := Watch(t).regs)
    decreases |t|
  {
    if t != [] {
      PutsOnly(t[..|t| - 1]);
    }
  }

  lemma SpillOne(words: seq<bv32>, w: bv32)
    ensures Spill(words + [w]) == Spill(words) + Bytes(w)
  {
  }

  lemma FlipConcat(s: seq<bv8>, t: seq<bv8>)
    ensures Flip(s) + Flip(t) == Flip(s + t)
  {
  }

  lemma FlipPrefix(s: seq<bv8>, n: nat)
    requires n <= |s|
    ensures Flip(s)[..n] == Flip(s[..n])
  {
  }

  lemma HonestNothing(script: seq<Status>)
    ensures Honest([], script)
  {
  }

  /** What FCL_IRQ shows at its n-th reading: a finite history, then an idle loader
      with room in its FIFO. */
  function Reading(script: seq<Status>, n: nat): Status {
    if n < |script| then script[n] else Status(false, false, false)
  }

  ghost predicate Honest(t: seq<Event>, script: seq<Status>) {
    forall i :: 0 <= i < |t| ==>
      && (t[i].Check? ==> t[i].status == Reading(script, Watch(t[..i]).looks))
      && (t[i].Poll? ==> t[i].status == Reading(script, Watch(t[..i]).looks))
  }

  lemma HonestOne(t: seq<Event>, e: Event, script: seq<Status>)
    requires Honest(t, script)
    requires e.Check? ==> e.status == Reading(script, Watch(t).looks)
    requires e.Poll? ==> e.status == Reading(script, Watch(t).looks)
    ensures Honest(t + [e], script)
  {
    hide Watch, Reading;
    var u := t + [e];
    assert u[..|t|] == t;
    forall i | 0 <= i < |t|
      ensures u[..i] == t[..i]
    {
    }
  }

  /** Looking at FCL_IRQ leaves what was fed alone; an alarm is what stops the load. */
  lemma LookKeepsFed(t: seq<Event>, e: Event, data: seq<bv8>, size8: int, wrote: nat, done: bool)
    requires 4 * wrote <= |data| && Fed(t, data, size8, wrote, done)
    ensures e.Poll? ==>
              && Fed(t + [e], data, size8, wrote, done) && Watch(t + [e]).looks == Watch(t).looks + 1
              && (!e.status.busy ==> Watch(t + [e]).since == 0) && Watch(t + [e]).blind == Watch(t).blind
    ensures e.Check? ==>
              var finished := e.status.done && wrote != 0;
              && Watch(t + [e]).alarm == (e.status.error && !done && !finished)
              && (!Watch(t + [e]).alarm ==> Fed(t + [e], data, size8, wrote, done || finished))
    ensures e.Check? ==>
              && Watch(t + [e]).words == Watch(t).words && Watch(t + [e]).peak == Watch(t).peak
              && Watch(t + [e]).lost == Watch(t).lost && Watch(t + [e]).worst == Watch(t).worst
              && Watch(t + [e]).blind == 0
    ensures Prologue(size8) <= t + [e] && (t + [e])[..|t|] == t
  {
    hide Spill, Flip, Bytes, CtrlWord;
    WatchOne(t, e);
  }

  lemma StoreKeepsFed(t: seq<Event>, w: bv32, data: seq<bv8>, size8: int, wrote: nat, done: bool)
    requires 4 * wrote + 4 <= |data| && Fed(t, data, size8, wrote, done)
    requires Watch(t).since < 32 && Watch(t).blind < 32 && Bytes(w) == Flip(data[4 * wrote..4 * wrote + 4])
    ensures Fed(t + [Store(w)], data, size8, wrote + 1, done)
    ensures Watch(t + [Store(w)]).since == Watch(t).since + 1 && Watch(t + [Store(w)]).blind == Watch(t).blind + 1
  {
    hide Spill, Flip, Bytes, Prologue;
    WatchOne(t, Store(w));
    SpillOne(Watch(t).words, w);
    FlipConcat(data[..4 * wrote], data[4 * wrote..4 * wrote + 4]);
    assert data[..4 * wrote] + data[4 * wrote..4 * wrote + 4] == data[..4 * (wrote + 1)];
  }

  /** The closing write to CTRL starts nothing. */
  lemma LastWrite(t: seq<Event>)
    ensures Watch(t + [Put(Ctrl, 0x186)]) == Watch(t).(regs := Watch(t + [Put(Ctrl, 0x186)]).regs)
  {
    hide SetUp;
    WatchOne(t, Put(Ctrl, 0x186));
  }

  /** The state in which the load ends, seen by the FPGA. */
  lemma FedIsReceived(t: seq<Event>, data: seq<bv8>, size8: int, done: bool)
    requires 4 * WordCount(size8) <= |data| && Fed(t, data, size8, WordCount(size8), done)
    ensures var u := t + [Put(Ctrl, 0x186)];
            && u[..|t|] == t && Prologue(size8) <= u
            && Watch(u) == Watch(t).(regs := Watch(u).regs)
            && (size8 >= 0 ==>
                  && 4 * WordCount(size8) - Surplus(Watch(u)) == size8
                  && Surplus(Watch(u)) <= |Spill(Watch(u).words)|
                  && Received(u) == Flip(data[..size8]))
  {
    hide Spill, Flip, Prologue, Watch, CtrlWord;
    LastWrite(t);
    CtrlWords(size8);
    if size8 >= 0 {
      FlipPrefix(data[..4 * WordCount(size8)], size8);
      assert data[..4 * WordCount(size8)][..size8] == data[..size8];
    }
  }

  /** A reset that does not read back stops the load before anything is stored. */
  lemma StoppedEarly(data: seq<bv8>, size8: int)
    ensures |Prologue(size8)| > 2
    ensures var t := Prologue(size8)[..2];
            && Watch(t).words == [] && Watch(t).peak == Watch(t).worst == Watch(t).lost == 0 && !Watch(t[..1]).alarm
            && Spill(Watch(t).words) == Flip(data[..0])
  {
    PutsOnly(Prologue(size8)[..2]);
    PutsOnly(Prologue(size8)[..2][..1]);
  }

  // ------------------------------------------------------------ a FIFO too small

  /** Word `k` of an image. */
  function ImageWord(data: seq<bv8>, k: nat): (w: bv32)
    requires 4 * k + 4 <= |data|
  {
    Word(ReverseBits8(data[4 * k]), ReverseBits8(data[4 * k + 1]),
         ReverseBits8(data[4 * k + 2]), ReverseBits8(data[4 * k + 3]))
  }

  lemma ImageWordBytes(data: seq<bv8>, k: nat)
    requires 4 * k + 4 <= |data|
    ensures Bytes(ImageWord(data, k)) == Flip(data[4 * k..4 * k + 4])
  {
    hide ReverseBits8, Word, Bytes;
    BytesOfWord(ReverseBits8(data[4 * k]), ReverseBits8(data[4 * k + 1]),
                ReverseBits8(data[4 * k + 2]), ReverseBits8(data[4 * k + 3]));
  }

  /** The words of a chunk on their way to the FIFO. */
  function Chunk(data: seq<bv8>, from: nat, n: nat): (t: seq<Event>)
    requires 4 * (from + n) <= |data|
    ensures |t| == n
  {
    seq(n, i requires 0 <= i < n => Store(ImageWord(data, from + i)))
  }

  lemma {:induction false} ChunkFed(t: seq<Event>, data: seq<bv8>, size8: int, from: nat, n: nat, depth: nat)
    requires 4 * (from + n) <= |data| && n <= 32
    requires Fed(t, data, size8, from, false) && Watch(t).since == Watch(t).blind == 0 && Honest(t, [])
    ensures var u := t + Chunk(data, from, n);
            && Fed(u, data, size8, from + n, false) && Watch(u).since == Watch(u).blind == n && Honest(u, [])
            && Level(u, depth) == Level(t, depth) + n
  {
    hide Watch, Fed, Honest, ImageWord;
    if n == 0 {
      assert t + Chunk(data, from, 0) == t;
    } else {
      ChunkFed(t, data, size8, from, n - 1, depth);
      var u, w := t + Chunk(data, from, n - 1), ImageWord(data, from + n - 1);
      ImageWordBytes(data, from + n - 1);
      StoreKeepsFed(u, w, data, size8, from + n - 1, false);
      HonestOne(u, Store(w), []);
      assert t + Chunk(data, from, n) == u + [Store(w)];
      assert (u + [Store(w)])[..|u|] == u;
    }
  }

  /** One look for errors and one for room, at a loader that is idle. */
  const IDLE := Status(false, false, false)

  lemma LooksFed(t: seq<Event>, data: seq<bv8>, size8: int, wrote: nat, depth: nat)
    requires 4 * wrote <= |data| && Fed(t, data, size8, wrote, false) && Honest(t, [])
    ensures var u := t + [Check(IDLE)] + [Poll(IDLE)];
            && Fed(u, data, size8, wrote, false) && Watch(u).since == Watch(u).blind == 0 && Honest(u, [])
            && (Level(t, depth) > depth / 2 ==> Level(u, depth) == depth / 2)
  {
    hide Watch, Fed, Honest;
    LookKeepsFed(t, Check(IDLE), data, size8, wrote, false);
    LookKeepsFed(t + [Check(IDLE)], Poll(IDLE), data, size8, wrote, false);
    HonestOne(t, Check(IDLE), []);
    HonestOne(t + [Check(IDLE)], Poll(IDLE), []);
  }

  /** 63 is sharp: the load of any image of 256 bytes, at a loader that never complains,
      overflows a smaller FIFO that drains no more than it must. */
  lemma ShallowFifoOverflows(data: seq<bv8>, depth: nat)
    requires |data| == 256 && depth < 63
    ensures var looks := [Check(IDLE)] + [Poll(IDLE)];
            var t := Prologue(256) + looks + Chunk(data, 0, 32) + looks + Chunk(data, 32, 32);
            Fed(t, data, 256, 64, false) && Honest(t, []) && Level(t, depth) > depth
  {
    hide Watch, Fed, Honest, Chunk, Prologue, Level;
    var p, c, d := Prologue(256), [Check(IDLE)], [Poll(IDLE)];
    PrologueIsFed(data, 256);
    PrologueIsHonest(256);
    LooksFed(p, data, 256, 0, depth);
    var t1 := p + c + d;
    ChunkFed(t1, data, 256, 0, 32, depth);
    var t2 := t1 + Chunk(data, 0, 32);
    LooksFed(t2, data, 256, 32, depth);
    var t3 := t2 + c + d;
    ChunkFed(t3, data, 256, 32, 32, depth);
    assert p + (c + d) == t1 && t2 + (c + d) == t3;
  }

  lemma PrologueIsHonest(size8: int)
    ensures Honest(Prologue(size8), [])
  {
    hide Watch, Reading, CtrlWord;
  }

  /** The configuration loader's registers; `echo` is what FCL_CTRL reads back after
      the reset bit was written. */
  class Fcl {
    const script: seq<Status>
    const echo: nat
    var trace: seq<Event>

    constructor (script: seq<Status>, echo: nat)
      ensures this.script == script && this.echo == echo && trace == []
    {
      this.script, this.echo, trace := script, echo, [];
    }

    method Write(reg: Reg, value: nat)
      modifies this
      ensures trace == old(trace) + [Put(reg, value)]
      ensures Honest(old(trace), script) ==> Honest(trace, script)
    {
      if Honest(trace, script) {
        HonestOne(trace, Put(reg, value), script);
      }
      trace := trace + [Put(reg, value)];
    }

    method StoreWord(w: bv32)
      modifies this
      ensures trace == old(trace) + [Store(w)]
      ensures Honest(old(trace), script) ==> Honest(trace, script)
    {
      if Honest(trace, script) {
        HonestOne(trace, Store(w), script);
      }
      trace := trace + [Store(w)];
    }

    method LookForErrors() returns (status: Status)
      modifies this
      ensures status == Reading(script, Watch(old(trace)).looks) && trace == old(trace) + [Check(status)]
      ensures Honest(old(trace), script) ==> Honest(trace, script)
    {
      status := Reading(script, Watch(trace).looks);
      if Honest(trace, script) {
        HonestOne(trace, Check(status), script);
      }
      trace := trace + [Check(status)];
    }

    method LookForRoom() returns (status: Status)
      modifies this
      ensures status == Reading(script, Watch(old(trace)).looks) && trace == old(trace) + [Poll(status)]
      ensures Honest(old(trace), script) ==> Honest(trace, script)
    {
      status := Reading(script, Watch(trace).looks);
      if Honest(trace, script) {
        HonestOne(trace, Poll(status), script);
      }
      trace := trace + [Poll(status)];
    }

    /** The writes that reset and start the loader. */
    method Start(size8: int) returns (ok: bool)
      requires trace == []
      modifies this
      ensures Honest(trace, script)
      ensures ok <==> echo == 0x40
      ensures trace == if ok then Prologue(size8) else Prologue(size8)[..2]
      // the loader is set up and started, and CTRL says how many bytes to drop
      ensures ok ==>
                var s := Watch(trace);
                && s.regs.Some? && SetUp(s.regs.value)
                && s.start == 0x107 + 16 * (-size8 % 4)
    {
      hide Honest, Watch, SetUp, CtrlWord;
      assert Honest([], script) by { HonestNothing(script); }
      Write(ClkDiv, 0);
      Write(Ctrl, 0x40);
      if echo != 0x40 {
        return false;
      }
      Write(Ctrl, 0);
      Write(Irq, 0);
      Configure(size8);
      PrologueIsFed([], size8);
      CtrlWords(size8);
      ok := true;
    }

    /** The rest of them, from the clearing of pending interrupts on. */
    method Configure(size8: int)
      requires trace == Prologue(size8)[..4] && Honest(trace, script)
      modifies this
      ensures trace == Prologue(size8) && Honest(trace, script)
    {
      hide Honest, Watch;
      var ctrl := 0;
      match size8 % 4 {
        case 3 => ctrl := 0x116;
        case 2 => ctrl := 0x126;
        case 1 => ctrl := 0x136;
        case 0 => ctrl := 0x106;
      }
      Write(Ctrl, ctrl);
      Write(ClkDiv, 0);
      Write(TimerCtrl, 0);
      Write(Timer0, 0x10);
      Write(Timer1, 0);
      Write(Timer20, 0x08);
      Write(Timer21, 0);
      Write(En, 0x17);
      Write(Ctrl, ctrl + 1);
    }

    /** The wait for a half-empty FIFO: it ends, and stores nothing. */
    method WaitForRoom(ghost data: seq<bv8>, ghost size8: int, ghost wrote: nat, ghost done: bool)
      requires Honest(trace, script) && 4 * wrote <= |data| && Fed(trace, data, size8, wrote, done)
      modifies this
      ensures Honest(trace, script) && Fed(trace, data, size8, wrote, done)
      ensures Watch(trace).since == 0 && Watch(trace).blind == old(Watch(trace).blind)
    {
      hide Honest, Fed, Watch;
      ghost var t := trace;
      var status := LookForRoom();
      LookKeepsFed(t, Poll(status), data, size8, wrote, done);
      while status.busy
        invariant Honest(trace, script) && Fed(trace, data, size8, wrote, done)
        invariant !status.busy ==> Watch(trace).since == 0
        invariant Watch(trace).blind == old(Watch(trace).blind)
        invariant Watch(trace).looks > 0 && status == Reading(script, Watch(trace).looks - 1)
        decreases |script| - Watch(trace).looks, status.busy
      {
        t := trace;
        status := LookForRoom();
        LookKeepsFed(t, Poll(status), data, size8, wrote, done);
      }
    }

    /** The inner loop: up to 32 words. */
    method Fill(data: seq<bv8>, ghost size8: int, from: nat, total: nat, ghost done: bool) returns (wrote: nat)
      requires Honest(trace, script) && from <= total && 4 * total <= |data|
      requires Fed(trace, data, size8, from, done) && Watch(trace).since == Watch(trace).blind == 0
      modifies this
      ensures wrote == if total - from < 32 then total else from + 32
      ensures Honest(trace, script) && Fed(trace, data, size8, wrote, done)
    {
      hide Honest, Flip, Bytes, Fed, Watch;
      wrote := from;
      var i := 0;
      while wrote < total && i < 32
        invariant from <= wrote == from + i <= total && i <= 32
        invariant Honest(trace, script) && Fed(trace, data, size8, wrote, done)
        invariant Watch(trace).since == Watch(trace).blind == i
      {
        var w := UnalignedBitswapLe32(data, 4 * wrote);
        StoreKeepsFed(trace, w, data, size8, wrote, done);
        StoreWord(w);
        wrote := wrote + 1;
        i := i + 1;
      }
    }

    /** loader_low_level, after the GPIO lines that select the configuration mode.  The
        code reads whole words, so the buffer has to reach the end of the last one. */
    method Load(data: seq<bv8>, size8: int) returns (ret: int)
      requires trace == [] && size8 < 0x7fff_fffd && 4 * WordCount(size8) <= |data|
      modifies this
      ensures Honest(trace, script)
      ensures ret == -EIO || ret == WordCount(size8)
      ensures echo != 0x40 ==> ret == -EIO && trace == Prologue(size8)[..2]
      ensures echo == 0x40 ==> Prologue(size8) <= trace && (ret == -EIO <==> Watch(trace).alarm)
      ensures echo == 0x40 ==> (ret == -EIO <==> exists i :: Raises(trace, i))
      ensures !Watch(trace[..|trace| - 1]).alarm && Watch(trace).peak <= 32
      ensures Watch(trace).lost == 0 && Watch(trace).worst <= 32
      ensures 4 * |Watch(trace).words| <= |data| && Spill(Watch(trace).words) == Flip(data[..4 * |Watch(trace).words|])
      ensures ret != -EIO ==> |Watch(trace).words| == ret && trace[|trace| - 1] == Put(Ctrl, 0x186)
      ensures ret != -EIO && size8 >= 0 ==>
                4 * ret - Surplus(Watch(trace)) == size8 && Received(trace) == Flip(data[..size8])
    {
      hide Honest, Reading, Watch, Flip, Spill, Received, Surplus, Prologue, Raises;
      var size32 := WordCount(size8);
      var ok := Start(size8);
      if !ok {
        StoppedEarly(data, size8);
        return -EIO;
      }
      PrologueIsFed(data, size8);
      var wrote, done := 0, false;
      while wrote < size32
        invariant wrote <= size32 && Honest(trace, script)
        invariant Fed(trace, data, size8, wrote, done)
      {
        ghost var t := trace;
        var status := LookForErrors();
        LookKeepsFed(t, Check(status), data, size8, wrote, done);
        if status.done && wrote != 0 {
          done := true;
        } else if status.error && !done {
          AlarmMeans(trace);
          return -EIO;
        }
        WaitForRoom(data, size8, wrote, done);
        wrote := Fill(data, size8, wrote, size32, done);
      }
      FedIsReceived(trace, data, size8, done);
      Write(Ctrl, 0x186);
      AlarmMeans(trace);
      ret := wrote;
    }
  }
}
