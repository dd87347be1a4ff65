/** The DIO mezzanine driver (kernel/wr-nic-dio.c): timestamp rings, pulse
trains and the I/O mode register.

One run of the interrupt handler and one ioctl are atomic steps.  The state that
the driver keeps per channel is an object with a ring buffer; what a step does
to it is given by functions on its abstract value, `ChanView`, and the
properties of whole runs are proved about those functions. */
module WrNicDio {
  import opened Common
  import Ppsg
  import opened Timespec

  const CHANNELS := 5
  const BUFFER_LEN := 512
  const N_STAMP := 16
  const EINVAL := 22
  const EAGAIN := 11
  const ERESTARTSYS := 512

  // ------------------------------------------------------------------ rings

  /** A ring of BUFFER_LEN slots holds one entry less; older entries are lost. */
  function Newest(q: seq<Timespec>): (r: seq<Timespec>)
    ensures |r| < BUFFER_LEN
    ensures r <= q || |q| >= BUFFER_LEN
  {
    if |q| < BUFFER_LEN then q else q[|q| - (BUFFER_LEN - 1)..]
  }

  lemma NewestTwice(q: seq<Timespec>, xs: seq<Timespec>)
    ensures Newest(Newest(q) + xs) == Newest(q + xs)
  {
    if |q| >= BUFFER_LEN {
      var k := |q| - (BUFFER_LEN - 1);
      assert q[k..] + xs == (q + xs)[k..];
      if xs != [] {
        DropTwice(q + xs, k, |xs|);
      } else {
        assert q + xs == q && q[k..] + xs == q[k..];
      }
    }
  }

  lemma DropTwice<T>(s: seq<T>, i: nat, j: nat)
    requires i + j <= |s|
    ensures s[i..][j..] == s[i + j..]
  {
  }

  /** The entries between tail and head, oldest first. */
  function RingQueue(buf: seq<Timespec>, tail: nat, head: nat): (q: seq<Timespec>)
    requires |buf| == BUFFER_LEN && tail < BUFFER_LEN && head < BUFFER_LEN
    ensures |q| < BUFFER_LEN
  {
    if tail <= head then buf[tail..head] else buf[tail..] + buf[..head]
  }

  lemma RingPush(buf: seq<Timespec>, tail: nat, head: nat, x: Timespec)
    requires |buf| == BUFFER_LEN && tail < BUFFER_LEN && head < BUFFER_LEN
    ensures var head' := (head + 1) % BUFFER_LEN;
            var tail' := if head' == tail then (tail + 1) % BUFFER_LEN else tail;
            RingQueue(buf[head := x], tail', head') == Newest(RingQueue(buf, tail, head) + [x])
  {
    if tail <= head {
      PushStraight(buf, tail, head, x);
    } else {
      PushWrapped(buf, tail, head, x);
    }
  }

  lemma PushStraight(buf: seq<Timespec>, tail: nat, head: nat, x: Timespec)
    requires |buf| == BUFFER_LEN && tail <= head < BUFFER_LEN
    ensures var head' := (head + 1) % BUFFER_LEN;
            var tail' := if head' == tail then (tail + 1) % BUFFER_LEN else tail;
            RingQueue(buf[head := x], tail', head') == Newest(buf[tail..head] + [x])
  {
    hide RingQueue, Newest;
    AppendSlot(buf, tail, head, x);
    if head < BUFFER_LEN - 1 {
      Room(buf[head := x], tail, head + 1);
    } else {
      Last(buf[head := x], tail);
    }
  }

  /** The head has not reached the end of the buffer. */
  lemma Room(buf: seq<Timespec>, tail: nat, head: nat)
    requires |buf| == BUFFER_LEN && tail < head < BUFFER_LEN
    ensures RingQueue(buf, tail, head) == buf[tail..head] == Newest(buf[tail..head])
  {
  }

  /** It has: the ring is full if the tail is at the beginning. */
  lemma Last(buf: seq<Timespec>, tail: nat)
    requires |buf| == BUFFER_LEN && tail < BUFFER_LEN
    ensures RingQueue(buf, if tail == 0 then 1 else tail, 0) == Newest(buf[tail..BUFFER_LEN])
  {
    assert buf[tail..BUFFER_LEN] == buf[tail..] && buf[0..] == buf;
    assert buf[tail..] + buf[..0] == buf[tail..] && buf[1..] + buf[..0] == buf[1..];
  }

  lemma PushWrapped(buf: seq<Timespec>, tail: nat, head: nat, x: Timespec)
    requires |buf| == BUFFER_LEN && head < tail < BUFFER_LEN
    ensures var head' := (head + 1) % BUFFER_LEN;
            var tail' := if head' == tail then (tail + 1) % BUFFER_LEN else tail;
            RingQueue(buf[head := x], tail', head') == Newest(buf[tail..] + buf[..head] + [x])
  {
    hide RingQueue, Newest;
    var buf' := buf[head := x];
    AppendSlot(buf, 0, head, x);
    assert buf[0..head] == buf[..head] && buf'[0..head + 1] == buf'[..head + 1];
    Assoc(buf[tail..], buf[..head], [x]);
    assert buf[tail..] == buf'[tail..];
    if head + 1 == tail {
      PushFull(buf', tail, buf[tail..] + buf[..head] + [x]);
    } else {
      Around(buf', tail, head + 1);
    }
  }

  lemma Around(buf: seq<Timespec>, tail: nat, head: nat)
    requires |buf| == BUFFER_LEN && head < tail < BUFFER_LEN
    ensures RingQueue(buf, tail, head) == buf[tail..] + buf[..head] == Newest(buf[tail..] + buf[..head])
  {
  }

  lemma AppendSlot<T>(s: seq<T>, i: nat, j: nat, x: T)
    requires i <= j < |s|
    ensures s[j := x][i..j + 1] == s[i..j] + [x]
  {
  }

  lemma PushFull(buf: seq<Timespec>, tail: nat, q: seq<Timespec>)
    requires |buf| == BUFFER_LEN && 0 < tail < BUFFER_LEN && q == buf[tail..] + buf[..tail]
    ensures RingQueue(buf, (tail + 1) % BUFFER_LEN, tail) == q[1..] == Newest(q)
  {
  }

  lemma RingPop(buf: seq<Timespec>, tail: nat, head: nat)
    requires |buf| == BUFFER_LEN && tail < BUFFER_LEN && head < BUFFER_LEN
    ensures var q := RingQueue(buf, tail, head);
            && (head == tail <==> q == [])
            && (head != tail ==> q[0] == buf[tail] && q[1..] == RingQueue(buf, (tail + 1) % BUFFER_LEN, head))
  {
    var next := (tail + 1) % BUFFER_LEN;
    if tail < head {
      assert next == tail + 1;
      assert buf[tail..head][1..] == buf[next..head];
    } else if tail > head {
      DropHead(buf[tail..], buf[..head]);
      if tail == BUFFER_LEN - 1 {
        assert next == 0 && buf[tail..][1..] == [];
        assert buf[tail..][1..] + buf[..head] == buf[0..head];
      } else {
        assert next == tail + 1 && buf[tail..][1..] == buf[next..];
      }
    }
  }

  lemma DropHead<T>(s: seq<T>, t: seq<T>)
    requires s != []
    ensures (s + t)[0] == s[0] && (s + t)[1..] == s[1..] + t
  {
  }

  datatype ChanView = ChanView(queue: seq<Timespec>, prev: Timespec, delay: Timespec, count: int, target: nat)

  /** struct dio_channel */
  class Channel {
    const tsbuf: array<Timespec>
    var bhead: nat
    var btail: nat
    var prevts: Timespec
    var delay: Timespec
    var count: int
    var target: nat

    constructor ()
      ensures Valid() && fresh(tsbuf)
      ensures View() == ChanView([], Timespec(0, 0), Timespec(0, 0), 0, 0)
    {
      tsbuf := new Timespec[BUFFER_LEN](_ => Timespec(0, 0));
      bhead, btail := 0, 0;
      prevts, delay, count, target := Timespec(0, 0), Timespec(0, 0), 0, 0;
    }

    ghost predicate Valid()
      reads this
    {
      tsbuf.Length == BUFFER_LEN && bhead < BUFFER_LEN && btail < BUFFER_LEN && target < CHANNELS
    }

    /** The stamps between tail and head, oldest first. */
    ghost function Queue(): seq<Timespec>
      requires Valid()
      reads this, tsbuf
    {
      RingQueue(tsbuf[..], btail, bhead)
    }

    ghost function View(): ChanView
      requires Valid()
      reads this, tsbuf
    {
      ChanView(Queue(), prevts, delay, count, target)
    }

    /** Take the next slot, dropping the oldest stamp if there is no other. */
    method Push(ts: Timespec)
      requires Valid()
      modifies this`bhead, this`btail, tsbuf
      ensures Valid()
      ensures View() == old(View()).(queue := Newest(old(Queue()) + [ts]))
    {
      hide RingQueue, Newest;
      var h := bhead;
      bhead := (h + 1) % BUFFER_LEN;
      if bhead == btail {
        btail := (btail + 1) % BUFFER_LEN;
      }
      tsbuf[h] := ts;
      RingPush(old(tsbuf[..]), old(btail), h, ts);
      assert tsbuf[..] == old(tsbuf[..])[h := ts];
    }

    method Pop() returns (ts: Timespec)
      requires Valid() && Queue() != []
      modifies this`btail
      ensures Valid()
      ensures ts == old(Queue())[0] && Queue() == old(Queue())[1..]
      ensures View() == old(View()).(queue := Queue())
    {
      hide RingQueue;
      RingPop(tsbuf[..], btail, bhead);
      ts := tsbuf[btail];
      btail := (btail + 1) % BUFFER_LEN;
    }
  }

  // --------------------------------------------------------- the registers

  /** One entry of a timestamp FIFO: 40-bit seconds in two halves, and cycles. */
  datatype Tag = Tag(hi: nat, lo: nat, cycle: nat)

  /** What the handler makes of an entry: the two halves of the second do not
      overlap, and five cycles are lost in the input synchronisers. */
  function StampOf(t: Tag): (ts: Timespec)
    ensures Normal(ts) && Ns(ts) == (t.hi * TWO32 + t.lo) * GIGA + 8 * t.cycle - 40
  {
    SubNs(Timespec(t.hi * TWO32 + t.lo, 8 * t.cycle), 40)
  }

  function Stamps(tags: seq<Tag>): seq<Timespec> { seq(|tags|, i requires 0 <= i < |tags| => StampOf(tags[i])) }

  /** A pulse the hardware has been told to emit: channel, 40-bit second, cycle. */
  datatype Trigger = Trigger(ch: nat, sec: nat, cycle: nat)

  /** The trigger programmed for time `ts`: one cycle early, to make up for the
      latency of the output. */
  function PulseAt(ch: nat, ts: Timespec): Trigger {
    var p := SubNs(ts, 8);
    Trigger(ch, p.sec % TWO40, p.nsec / 8)
  }

  /** The trigger for a time given in nanoseconds: the tick before it, the
      seconds as far as 40 bits go. */
  function TriggerAt(i: nat, ns: int): Trigger {
    Trigger(i, (ns - 8) / GIGA % TWO40, (ns - 8) % GIGA / 8)
  }

  lemma PulseAtNs(i: nat, ts: Timespec)
    ensures PulseAt(i, ts) == TriggerAt(i, Ns(ts))
  {
    NormalUnique(SubNs(ts, 8), Timespec((Ns(ts) - 8) / GIGA, (Ns(ts) - 8) % GIGA));
  }

  /** The DIO register block. `armed` lists the triggers in the order in which
      they were latched, `fired` the immediate pulses. */
  class DioRegs {
    var iomode: bv32
    var gpio: seq<bool>  // the GPIO output values
    var trigL: seq<nat>
    var trigH: seq<nat>
    var cycle: seq<nat>
    var pulse: seq<int>
    var fifo: seq<seq<Tag>>
    var armed: seq<Trigger>
    var fired: seq<nat>
    var irqEnabled: bool

    constructor (iomode: bv32, gpio: seq<bool>)
      requires |gpio| == CHANNELS
      ensures Ok() && this.iomode == iomode && this.gpio == gpio
      ensures fifo == [[], [], [], [], []] && armed == [] && fired == [] && irqEnabled
    {
      this.iomode, this.gpio := iomode, gpio;
      trigL, trigH, cycle, pulse := [0, 0, 0, 0, 0], [0, 0, 0, 0, 0], [0, 0, 0, 0, 0], [0, 0, 0, 0, 0];
      fifo, armed, fired, irqEnabled := [[], [], [], [], []], [], [], true;
    }

    ghost predicate Ok()
      reads this
    {
      |trigL| == |trigH| == |cycle| == |pulse| == |fifo| == |gpio| == CHANNELS
    }

    /** R_LATCH: the trigger registers of a channel take effect.  The hardware
        looks at 32, 8 and 28 bits of them. */
    method Latch(ch: nat)
      requires Ok() && ch < CHANNELS
      modifies this`armed
      ensures armed == old(armed) + [Trigger(ch, trigH[ch] % 256 * TWO32 + trigL[ch] % TWO32, cycle[ch] % 0x1000_0000)]
    {
      armed := armed + [Trigger(ch, trigH[ch] % 256 * TWO32 + trigL[ch] % TWO32, cycle[ch] % 0x1000_0000)];
    }
  }

  lemma SplitSecond(sec: int)
    ensures sec / TWO32 % TWO32 % 256 * TWO32 + sec % TWO32 % TWO32 == sec % TWO40
  {
    var q := sec / TWO32;
    LowByteOfWord(q);
    var m, r := q / 256, q % 256;
    assert q == 256 * m + r;
    assert sec == TWO40 * m + (TWO32 * r + sec % TWO32);
    Residue(sec, m, TWO32 * r + sec % TWO32);
  }

  lemma LowByteOfWord(q: int)
    ensures q % TWO32 % 256 == q % 256
  {
  }

  lemma Residue(x: int, m: int, r: int)
    requires x == TWO40 * m + r && 0 <= r < TWO40
    ensures x % TWO40 == r
  {
  }

  // ------------------------------------------------------ the abstract steps

  datatype DevView = DevView(chans: seq<ChanView>, fifo: seq<seq<Tag>>, armed: seq<Trigger>)
  {
    predicate Ok() {
      && |chans| == |fifo| == CHANNELS
      && forall i :: 0 <= i < CHANNELS ==> chans[i].target < CHANNELS && |chans[i].queue| < BUFFER_LEN
    }
  }

  /** What an interrupt does to a channel whose FIFO held `tags`. */
  function Served(v: ChanView, i: nat, tags: seq<Tag>): ChanView {
    var q := v.(queue := Newest(v.queue + Stamps(tags)));
    if tags == [] || v.count == 0 then q
    else q.(prev := if v.target == i then Add(v.prev, v.delay) else v.prev,
            count := if v.count > 0 then v.count - 1 else v.count)
  }

  /** ... and the pulse it programs. */
  function Programmed(v: ChanView, i: nat, tags: seq<Tag>): seq<Trigger> {
    if tags == [] || v.count == 0 then []
    else if v.target == i then [PulseAt(i, Add(v.prev, v.delay))]
    else [PulseAt(v.target, Add(StampOf(tags[|tags| - 1]), v.delay))]
  }

  function ServeOne(d: DevView, i: nat): DevView
    requires d.Ok() && i < CHANNELS
  {
    DevView(d.chans[i := Served(d.chans[i], i, d.fifo[i])], d.fifo[i := []],
            d.armed + Programmed(d.chans[i], i, d.fifo[i]))
  }

  /** The channels below `n` whose interrupt bit is set, in ascending order. */
  function ServeUpTo(d: DevView, isr: set<nat>, n: nat): (d': DevView)
    requires d.Ok() && n <= CHANNELS
    ensures d'.Ok()
  {
    if n == 0 then d
    else
      var e := ServeUpTo(d, isr, n - 1);
      if n - 1 in isr then ServeOne(e, n - 1) else e
  }

  // ------------------------------------------------------------- the commands

  /** The flag bits of a command. */
  datatype Flags = Flags(now: bool, rel: bool, mask: bool, loop: bool, wait: bool)

  /** The part of `struct wr_dio_cmd` that comes from user space. */
  datatype Cmd = Cmd(channel: nat, value: nat, flags: Flags, t: seq<Timespec>)

  /** Division in C. */
  function TruncDiv(a: int, b: nat): (q: int)
    requires b > 0
    ensures a >= 0 ==> b * q <= a < b * (q + 1)
    ensures a <= 0 ==> b * (q - 1) < a <= b * q
  {
    if a >= 0 then a / b else -(-a / b)
  }

  /** `x` moved to the nibble of channel `i`. */
  function Shifted(x: bv32, i: nat): bv32 {
    if i == 0 then x else if i == 1 then x << 4 else if i == 2 then x << 8 else if i == 3 then x << 12 else x << 16
  }

  /** IOMODE with the DIO core selected for channel `i`, on top of what was there. */
  function WithDio(reg: bv32, i: nat): bv32 { reg | Shifted(1, i) }

  /** What a pulse command does to the mode of its channel: the source is the DIO core
      afterwards if it was that, or the GPIO core, before, and undefined otherwise;
      whether the output is enabled does not change. */
  lemma PulseMode(reg: bv32, i: nat, j: nat)
    requires i < CHANNELS && j < CHANNELS
    ensures Nibble(WithDio(reg, i), j) == if j == i then Dioed(Nibble(reg, j)) else Nibble(reg, j)
    ensures Upper(WithDio(reg, i)) == Upper(reg)
    ensures var was, now := ModeOf(Nibble(reg, i)), ModeOf(Nibble(WithDio(reg, i), i));
            && now.source == (if was.source in {Gpio, DioCore} then DioCore else Undefined)
            && now.output == was.output && now.term == was.term
  {
    hide Nibble, WithDio, Upper, ModeOf, Dioed;
    DioUpper(reg, i);
    NibbleWithDio(reg, i, i);
    NibbleWithDio(reg, i, j);
    DioedMode(Nibble(reg, i));
  }

  lemma DioUpper(reg: bv32, i: nat)
    requires i < CHANNELS
    ensures Upper(WithDio(reg, i)) == Upper(reg)
  {
    if i < 2 {
      assert Shifted(1, i) == 1 || Shifted(1, i) == 0x10;
    } else {
      assert Shifted(1, i) == 0x100 || Shifted(1, i) == 0x1000 || Shifted(1, i) == 0x1_0000;
    }
  }

  lemma NibbleWithDio(reg: bv32, i: nat, j: nat)
    requires i < CHANNELS && j < CHANNELS
    ensures Nibble(WithDio(reg, i), j) == if j == i then Dioed(Nibble(reg, j)) else Nibble(reg, j)
  {
    hide Nibble, WithDio, Dioed;
    match j {
      case 0 => Dio0(reg, i);
      case 1 => Dio1(reg, i);
      case 2 => Dio2(reg, i);
      case 3 => Dio3(reg, i);
      case _ => Dio4(reg, i);
    }
  }

  lemma Dio0(reg: bv32, i: nat)
    requires i < CHANNELS
    ensures Nibble(WithDio(reg, i), 0) == if i == 0 then Dioed(Nibble(reg, 0)) else Nibble(reg, 0)
  {
  }

  lemma Dio1(reg: bv32, i: nat)
    requires i < CHANNELS
    ensures Nibble(WithDio(reg, i), 1) == if i == 1 then Dioed(Nibble(reg, 1)) else Nibble(reg, 1)
  {
  }

  lemma Dio2(reg: bv32, i: nat)
    requires i < CHANNELS
    ensures Nibble(WithDio(reg, i), 2) == if i == 2 then Dioed(Nibble(reg, 2)) else Nibble(reg, 2)
  {
  }

  lemma Dio3(reg: bv32, i: nat)
    requires i < CHANNELS
    ensures Nibble(WithDio(reg, i), 3) == if i == 3 then Dioed(Nibble(reg, 3)) else Nibble(reg, 3)
  {
  }

  lemma Dio4(reg: bv32, i: nat)
    requires i < CHANNELS
    ensures Nibble(WithDio(reg, i), 4) == if i == 4 then Dioed(Nibble(reg, 4)) else Nibble(reg, 4)
  {
  }

  lemma DioedMode(nibble: bv32)
    ensures var was, now := ModeOf(nibble), ModeOf(Dioed(nibble));
            && now.source == (if was.source in {Gpio, DioCore} then DioCore else Undefined)
            && now.output == was.output && now.term == was.term
  {
  }

  function Dioed(nibble: bv32): bv32 { nibble | 1 }

  lemma DioedTwice(nibble: bv32)
    ensures Dioed(Dioed(nibble)) == Dioed(nibble)
  {
  }

  /** Where a pulse command wants its first pulse, `now` being the current second. */
  function Start(cmd: Cmd, now: nat): Timespec
    requires |cmd.t| >= 3
  {
    if cmd.flags.rel then cmd.t[0].(sec := cmd.t[0].sec + now) else cmd.t[0]
  }

  /** The same in nanoseconds: the time given, from the current second on if relative. */
  lemma StartNs(cmd: Cmd, now: nat)
    requires |cmd.t| >= 3
    ensures Ns(Start(cmd, now)) == Ns(cmd.t[0]) + if cmd.flags.rel then now * GIGA else 0
  {
  }

  /** The effect of a pulse command on the channels and the triggers. */
  function PulseStep(d: DevView, cmd: Cmd, now: nat): (d': DevView)
    requires d.Ok() && |cmd.t| >= 3
    ensures d'.Ok()
  {
    if cmd.channel > 4 || cmd.flags.now then d
    else
      var v := d.chans[cmd.channel];
      var v' := v.(target := cmd.channel, prev := Start(cmd, now), delay := cmd.t[2],
                   count := ToInt32(if cmd.value > 0 then cmd.value - 1 else 0));
      DevView(d.chans[cmd.channel := if cmd.flags.loop then v' else v], d.fifo,
              d.armed + [PulseAt(cmd.channel, Start(cmd, now))])
  }

  const INOUT_DIO: bv32 := 0x1
  const INOUT_VALUE: bv32 := 0x100
  const INOUT_OUTPUT: bv32 := 0x1_0000
  const INOUT_TERM: bv32 := 0x100_0000

  function MovedUp(x: bv32, i: nat): bv32 {
    if i == 0 then x else if i == 1 then x << 1 else if i == 2 then x << 2 else if i == 3 then x << 3 else x << 4
  }

  function MovedDown(x: bv32, i: nat): bv32 {
    if i == 0 then x else if i == 1 then x >> 1 else if i == 2 then x >> 2 else if i == 3 then x >> 3 else x >> 4
  }

  /** The four bits of a mode request that belong to one channel. */
  datatype Ask = Ask(dio: bool, value: bool, output: bool, term: bool)

  function AskOf(bits: bv32): Ask {
    Ask(bits & INOUT_DIO != 0, bits & INOUT_VALUE != 0, bits & INOUT_OUTPUT != 0, bits & INOUT_TERM != 0)
  }

  function Field(value: bv32, i: nat): Ask { AskOf(MovedDown(value, i)) }

  /** The nibble of channel `i` in IOMODE. */
  function Nibble(reg: bv32, i: nat): bv32 {
    (if i == 0 then reg else if i == 1 then reg >> 4 else if i == 2 then reg >> 8 else if i == 3 then reg >> 12
     else reg >> 16) & 0xF
  }

  /** The rest of IOMODE. */
  function Upper(reg: bv32): bv32 { reg & 0xFFF0_0000 }

  /** What a nibble means, after the register description: the source of the
      output, whether the output is enabled, and the termination. */
  datatype Source = Gpio | DioCore | Wrpc | Undefined
  datatype Mode = Mode(source: Source, output: bool, term: bool)

  function ModeOf(nibble: bv32): Mode {
    Mode(if nibble & 3 == 0 then Gpio else if nibble & 3 == 1 then DioCore
         else if nibble & 3 == 2 then Wrpc else Undefined,
         nibble & 4 == 0, nibble & 8 != 0)
  }

  /** The mode that a request asks for. */
  function Requested(ask: Ask): Mode {
    Mode(if !ask.dio then Gpio else if ask.value then Wrpc else DioCore, ask.output, ask.term)
  }

  /** The nibble that the mode loop computes from the request bits. */
  function IoMode(bits: bv32): bv32 {
    (if bits & INOUT_DIO == 0 then 0 else if bits & INOUT_VALUE != 0 then 2 else 1)
    | (if bits & INOUT_TERM != 0 then 8 else 0)
    | (if bits & INOUT_OUTPUT == 0 then 4 else 0)
  }

  lemma IoModeRight(bits: bv32)
    ensures IoMode(bits) & 0xF == IoMode(bits)
    ensures ModeOf(IoMode(bits)) == Requested(AskOf(bits))
  {
  }

  function WithNibble(reg: bv32, i: nat, mode: bv32): bv32 { (reg & !Shifted(0xF, i)) | Shifted(mode, i) }

  /** Replacing one nibble leaves the rest of the register alone. */
  lemma NibbleReplaced(reg: bv32, i: nat, mode: bv32)
    requires i < CHANNELS && mode & 0xF == mode
    ensures Upper(WithNibble(reg, i, mode)) == Upper(reg)
    ensures forall j :: 0 <= j < CHANNELS ==>
              Nibble(WithNibble(reg, i, mode), j) == if j == i then mode else Nibble(reg, j)
  {
    hide Nibble, WithNibble, Upper;
    UpperKept(reg, i, mode);
    forall j | 0 <= j < CHANNELS
      ensures Nibble(WithNibble(reg, i, mode), j) == if j == i then mode else Nibble(reg, j)
    {
      OneNibble(reg, i, j, mode);
    }
  }

  lemma OneNibble(reg: bv32, i: nat, j: nat, mode: bv32)
    requires i < CHANNELS && j < CHANNELS && mode & 0xF == mode
    ensures Nibble(WithNibble(reg, i, mode), j) == if j == i then mode else Nibble(reg, j)
  {
    hide Nibble, WithNibble;
    if j == i {
      NibbleSet(reg, i, mode);
    } else {
      NibbleKept(reg, i, j, mode);
    }
  }

  lemma NibbleSet(reg: bv32, i: nat, mode: bv32)
    requires i < CHANNELS && mode & 0xF == mode
    ensures Nibble(WithNibble(reg, i, mode), i) == mode
  {
  }

  lemma NibbleKept(reg: bv32, i: nat, j: nat, mode: bv32)
    requires i < CHANNELS && j < CHANNELS && i != j && mode & 0xF == mode
    ensures Nibble(WithNibble(reg, i, mode), j) == Nibble(reg, j)
  {
    hide Nibble, WithNibble;
    match j {
      case 0 => Kept0(reg, i, mode);
      case 1 => Kept1(reg, i, mode);
      case 2 => Kept2(reg, i, mode);
      case 3 => Kept3(reg, i, mode);
      case _ => Kept4(reg, i, mode);
    }
  }

  lemma Kept0(reg: bv32, i: nat, mode: bv32)
    requires i < CHANNELS && i != 0 && mode & 0xF == mode
    ensures Nibble(WithNibble(reg, i, mode), 0) == Nibble(reg, 0)
  {
  }

  lemma Kept1(reg: bv32, i: nat, mode: bv32)
    requires i < CHANNELS && i != 1 && mode & 0xF == mode
    ensures Nibble(WithNibble(reg, i, mode), 1) == Nibble(reg, 1)
  {
  }

  lemma Kept2(reg: bv32, i: nat, mode: bv32)
    requires i < CHANNELS && i != 2 && mode & 0xF == mode
    ensures Nibble(WithNibble(reg, i, mode), 2) == Nibble(reg, 2)
  {
  }

  lemma Kept3(reg: bv32, i: nat, mode: bv32)
    requires i < CHANNELS && i != 3 && mode & 0xF == mode
    ensures Nibble(WithNibble(reg, i, mode), 3) == Nibble(reg, 3)
  {
  }

  lemma Kept4(reg: bv32, i: nat, mode: bv32)
    requires i < CHANNELS && i != 4 && mode & 0xF == mode
    ensures Nibble(WithNibble(reg, i, mode), 4) == Nibble(reg, 4)
  {
  }

  lemma UpperKept(reg: bv32, i: nat, mode: bv32)
    requires i < CHANNELS && mode & 0xF == mode
    ensures Upper(WithNibble(reg, i, mode)) == Upper(reg)
  {
  }

  /** Is bit `i` of `m` set? */
  predicate HasBit(m: nat, i: nat) { if i == 0 then m % 2 == 1 else HasBit(m / 2, i - 1) }

  /** The channels a stamp request looks at. */
  function Selection(flags: Flags, channel: nat): set<nat> {
    if flags.mask then set i | 0 <= i < CHANNELS && HasBit(channel, i) else {channel}
  }

  function Weight(m: nat, i: nat): (w: nat)
    ensures w <= 1
  {
    if HasBit(m, i) then 1 else 0
  }

  /** One binary digit after the other: `rest` is m divided by 2^i. */
  ghost predicate Digits(m: nat, rest: nat, i: nat) { forall j: nat :: HasBit(m, i + j) <==> HasBit(rest, j) }

  lemma NextDigit(m: nat, rest: nat, i: nat)
    requires Digits(m, rest, i)
    ensures Digits(m, rest / 2, i + 1)
    ensures rest == 2 * (rest / 2) + Weight(m, i)
  {
    assert HasBit(m, i + 0) <==> HasBit(rest, 0);
    forall j: nat
      ensures HasBit(m, i + 1 + j) <==> HasBit(rest / 2, j)
    {
      assert HasBit(m, i + (j + 1)) <==> HasBit(rest, j + 1);
    }
  }

  lemma FiveDigits(m: nat)
    ensures m % 32 == Weight(m, 0) + 2 * Weight(m, 1) + 4 * Weight(m, 2) + 8 * Weight(m, 3) + 16 * Weight(m, 4)
  {
    assert Digits(m, m, 0);
    hide *;
    var a, b, c, d := m / 2, m / 2 / 2, m / 2 / 2 / 2, m / 2 / 2 / 2 / 2;
    NextDigit(m, m, 0);
    NextDigit(m, a, 1);
    NextDigit(m, b, 2);
    NextDigit(m, c, 3);
    NextDigit(m, d, 4);
    Remainder32(m, d / 2, Weight(m, 0) + 2 * Weight(m, 1) + 4 * Weight(m, 2) + 8 * Weight(m, 3) + 16 * Weight(m, 4));
  }

  lemma Remainder32(m: nat, q: nat, r: nat)
    requires m == 32 * q + r && r < 32
    ensures m % 32 == r
  {
  }

  /** A mask is the sum of the bits of the channels it selects, and of anything above. */
  lemma SelectionMeans(flags: Flags, channel: nat)
    ensures var sel := Selection(flags, channel);
            if !flags.mask then sel == {channel}
            else
              && (forall i <- sel :: i < CHANNELS)
              && channel % 32 == (if 0 in sel then 1 else 0) + (if 1 in sel then 2 else 0)
                                 + (if 2 in sel then 4 else 0) + (if 3 in sel then 8 else 0)
                                 + (if 4 in sel then 16 else 0)
  {
    hide HasBit;
    FiveDigits(channel);
    Selected(flags, channel);
  }

  /** The first selected channel, from `i` on, that has a stamp. */
  function FirstReady(chans: seq<ChanView>, sel: set<nat>, i: nat): (k: nat)
    requires |chans| == CHANNELS && i <= CHANNELS
    ensures i <= k <= CHANNELS
    ensures k < CHANNELS ==> k in sel && chans[k].queue != []
    ensures forall j :: i <= j < k && j in sel ==> chans[j].queue == []
    decreases CHANNELS - i
  {
    if i == CHANNELS || (i in sel && chans[i].queue != []) then i else FirstReady(chans, sel, i + 1)
  }

  function Batch(q: seq<Timespec>): nat { if |q| < N_STAMP then |q| else N_STAMP }

  /** A stamp request takes a batch from the first channel that has any. */
  function StampStep(d: DevView, sel: set<nat>): (d': DevView)
    requires d.Ok()
    ensures d'.Ok()
  {
    var k := FirstReady(d.chans, sel, 0);
    if k == CHANNELS then d
    else d.(chans := d.chans[k := d.chans[k].(queue := d.chans[k].queue[Batch(d.chans[k].queue)..])])
  }

  /** ... and returns it. */
  function Stamped(d: DevView, sel: set<nat>): seq<Timespec>
    requires d.Ok()
  {
    var k := FirstReady(d.chans, sel, 0);
    if k == CHANNELS then [] else d.chans[k].queue[..Batch(d.chans[k].queue)]
  }

  /** The stamps `ts` have been taken from channel `from`, the first selected one that had
      any: sixteen of them, or all there were, oldest first.  Nothing else has changed. */
  ghost predicate Took(d: DevView, sel: set<nat>, from: nat, ts: seq<Timespec>, e: DevView)
    requires d.Ok()
  {
    && from < CHANNELS && from in sel
    && (forall i :: 0 <= i < from && i in sel ==> d.chans[i].queue == [])
    && var q := d.chans[from].queue;
       && q != [] && |ts| == (if |q| < 16 then |q| else 16) && ts == q[..|ts|]
       && e == d.(chans := d.chans[from := d.chans[from].(queue := q[|ts|..])])
  }

  /** What a request does, channel by channel and stamp by stamp. */
  lemma RequestTakes(d: DevView, sel: set<nat>)
    requires d.Ok()
    ensures var ts, e := Stamped(d, sel), StampStep(d, sel);
            if ts == [] then e == d && forall i :: 0 <= i < CHANNELS && i in sel ==> d.chans[i].queue == []
            else Took(d, sel, FirstReady(d.chans, sel, 0), ts, e)
  {
    hide FirstReady;
  }

  // ---------------------------------------------------------------- the driver

  class Dio {
    const ch: seq<Channel>
    const hw: DioRegs
    const mezzanine: bool  // the EEPROM of the mezzanine has been read

    constructor (hw: DioRegs, mezzanine: bool)
      requires hw.Ok()
      ensures Valid() && this.hw == hw && this.mezzanine == mezzanine
      ensures forall i :: 0 <= i < CHANNELS ==> ch[i].View() == ChanView([], Timespec(0, 0), Timespec(0, 0), 0, 0)
    {
      hide Newest, RingQueue, Channel.View, Channel.Queue;
      this.hw, this.mezzanine := hw, mezzanine;
      var a := new Channel();
      var b := new Channel();
      var c := new Channel();
      var d := new Channel();
      var e := new Channel();
      ch := [a, b, c, d, e];
    }

    ghost function Rings(): set<object> { set i | 0 <= i < |ch| :: ch[i].tsbuf }

    ghost predicate Valid()
      reads hw, ch
    {
      && |ch| == CHANNELS && hw.Ok()
      && (forall i :: 0 <= i < CHANNELS ==> ch[i].Valid())
      && (forall i, j :: 0 <= i < j < CHANNELS ==> ch[i] != ch[j] && ch[i].tsbuf != ch[j].tsbuf)
    }

    ghost function View(): (d: DevView)
      requires Valid()
      reads hw, ch, Rings()
      ensures d.Ok()
    {
      DevView([ch[0].View(), ch[1].View(), ch[2].View(), ch[3].View(), ch[4].View()], hw.fifo, hw.armed)
    }

    lemma ChannelView(i: nat)
      requires Valid() && i < CHANNELS
      ensures View().chans[i] == ch[i].View() && View().fifo == hw.fifo && View().armed == hw.armed
    {
    }

    /** The other channels keep their value when one channel object changes. */
    twostate lemma OnlyOne(i: nat)
      requires old(Valid()) && Valid() && i < CHANNELS
      requires forall j :: 0 <= j < CHANNELS && j != i ==> unchanged(ch[j]) && unchanged(ch[j].tsbuf)
      ensures View() == DevView(old(View()).chans[i := ch[i].View()], hw.fifo, hw.armed)
    {
    }

    twostate lemma Same(i: nat)
      requires old(Valid()) && Valid() && i < CHANNELS && unchanged(ch[i]) && unchanged(ch[i].tsbuf)
      ensures old(View()).chans[i] == ch[i].View()
    {
    }

    twostate lemma Unmoved()
      requires old(Valid()) && Valid()
      requires forall j :: 0 <= j < CHANNELS ==> unchanged(ch[j]) && unchanged(ch[j].tsbuf)
      ensures View() == old(View()).(fifo := hw.fifo, armed := hw.armed)
    {
    }

    /** Pull one FIFO into the ring of its channel. */
    method DrainFifo(i: nat) returns (last: Option<Timespec>)
      requires Valid() && i < CHANNELS
      modifies hw`fifo, ch[i], ch[i].tsbuf
      ensures Valid()
      ensures hw.fifo == old(hw.fifo)[i := []]
      ensures ch[i].View() == old(ch[i].View()).(queue := Newest(old(ch[i].Queue()) + Stamps(old(hw.fifo)[i])))
      ensures last == if old(hw.fifo)[i] == [] then None else Some(StampOf(old(hw.fifo)[i][|old(hw.fifo)[i]| - 1]))
    {
      hide Newest, StampOf, Stamps, RingQueue;
      ghost var tags, q := hw.fifo[i], ch[i].Queue();
      ghost var done: seq<Tag> := [];
      NothingNew(q);
      last := None;
      while hw.fifo[i] != []
        invariant Valid()
        invariant done + hw.fifo[i] == tags
        invariant hw.fifo == old(hw.fifo)[i := hw.fifo[i]]
        invariant ch[i].View() == old(ch[i].View()).(queue := Newest(q + Stamps(done)))
        invariant last == if done == [] then None else Some(StampOf(done[|done| - 1]))
        decreases |hw.fifo[i]|
      {
        var tag := hw.fifo[i][0];
        hw.fifo := hw.fifo[i := hw.fifo[i][1..]];
        var ts := StampOf(tag);
        ch[i].Push(ts);
        StampsSnoc(q, done, tag);
        done := done + [tag];
        last := Some(ts);
      }
      assert done == tags;
    }

    /** __wrn_new_pulse: program a pulse without changing its width. */
    method NewPulse(i: nat, ts: Timespec)
      requires Valid() && i < CHANNELS
      modifies hw`cycle, hw`trigH, hw`trigL, hw`armed
      ensures hw.Ok() && hw.armed == old(hw.armed) + [PulseAt(i, ts)]
    {
      var p := SubNs(ts, 8);
      hw.cycle := hw.cycle[i := p.nsec / 8];
      hw.trigH := hw.trigH[i := p.sec / TWO32 % TWO32];
      hw.trigL := hw.trigL[i := p.sec % TWO32];
      SplitSecond(p.sec);
      hw.Latch(i);
    }

    /** wrn_trig_next_pulse */
    method TrigNextPulse(i: nat, ts: Timespec)
      requires Valid() && i < CHANNELS && ch[i].count != 0
      modifies hw`cycle, hw`trigH, hw`trigL, hw`armed, ch[i]
      ensures Valid()
      ensures var v := old(ch[i].View());
              && ch[i].View() == v.(prev := if v.target == i then Add(v.prev, v.delay) else v.prev,
                                    count := if v.count > 0 then v.count - 1 else v.count)
              && hw.armed == old(hw.armed)
                             + [PulseAt(v.target, Add(if v.target == i then v.prev else ts, v.delay))]
    {
      hide PulseAt, Add, RingQueue;
      var c := ch[i];
      var newts;
      if c.target == i {
        c.prevts := Add(c.prevts, c.delay);
        newts := c.prevts;
      } else {
        newts := Add(ts, c.delay);
      }
      NewPulse(c.target, newts);
      if c.count > 0 {
        c.count := c.count - 1;
      }
    }

    /** The body of the channel loop of the handler. */
    method ServeChannel(i: nat)
      requires Valid() && i < CHANNELS
      modifies hw`cycle, hw`trigH, hw`trigL, hw`armed, hw`fifo, ch[i], ch[i].tsbuf
      ensures Valid()
      ensures View() == ServeOne(old(View()), i)
    {
      hide PulseAt, Add, StampOf, Newest, RingQueue, Stamps, Dio.View;
      ChannelView(i);
      var last := DrainFifo(i);
      if last.Some? && ch[i].count != 0 {
        TrigNextPulse(i, last.value);
      } else {
        assert hw.armed == old(hw.armed) + [];
      }
      OnlyOne(i);
    }

    /** wrn_dio_interrupt; `isr` is the set of channels whose bit was found set in
        the interrupt status register. */
    method Interrupt(isr: set<nat>) returns (handled: bool)
      requires Valid() && forall i <- isr :: i < CHANNELS
      modifies hw`cycle, hw`trigH, hw`trigL, hw`armed, hw`fifo, hw`irqEnabled, ch, Rings()
      ensures Valid()
      ensures handled == mezzanine
      ensures !mezzanine ==> View() == old(View()) && !hw.irqEnabled
      ensures mezzanine ==> View() == ServeUpTo(old(View()), isr, CHANNELS) && hw.irqEnabled == old(hw.irqEnabled)
      ensures unchanged(hw`iomode) && unchanged(hw`gpio) && unchanged(hw`pulse) && unchanged(hw`fired)
    {
      if !mezzanine {
        hw.irqEnabled := false;
        Unmoved();
        return false;
      }
      ServeAll(isr);
      return true;
    }

    /** The channel loop of the handler. */
    method ServeAll(isr: set<nat>)
      requires Valid() && forall i <- isr :: i < CHANNELS
      modifies hw`cycle, hw`trigH, hw`trigL, hw`armed, hw`fifo, ch, Rings()
      ensures Valid()
      ensures View() == ServeUpTo(old(View()), isr, CHANNELS)
    {
      hide ServeOne, Newest, RingQueue, Served, Programmed, Dio.View, Channel.View, Channel.Queue;
      var mask := isr;
      var i := 0;
      ghost var d := View();
      while mask != {}
        invariant Valid() && 0 <= i <= CHANNELS
        invariant mask == set k | k in isr && i <= k
        invariant View() == ServeUpTo(d, isr, i)
        decreases CHANNELS - i
      {
        SomeChannel(mask);
        if i in mask {
          mask := mask - {i};
          ServeChannel(i);
        }
        i := i + 1;
      }
      assert forall k :: k in isr && i <= k ==> k in mask;
      NothingMore(d, isr, i, CHANNELS);
    }

    /** wrn_dio_cmd_pulse; `clock` holds the instants at which a relative command
        would read the time. */
    method CmdPulse(cmd: Cmd, clock: seq<nat>) returns (ret: int, ghost now: nat, ghost when: nat)
      requires Valid() && |cmd.t| == N_STAMP && cmd.value < TWO32
      requires Ppsg.Ordered(clock) && Ppsg.Second(clock[2]) - Ppsg.Second(clock[0]) < 255 * TWO32
      modifies hw, ch
      ensures Valid()
      ensures ret == if cmd.channel > 4 then -EINVAL else 0
      ensures clock[0] <= when <= clock[3] && now == Ppsg.Second(when) % TWO40
      ensures View() == PulseStep(old(View()), cmd, now)
      ensures hw.gpio == old(hw.gpio) && hw.irqEnabled == old(hw.irqEnabled)
      ensures cmd.channel > 4 ==> unchanged(hw)
      ensures cmd.channel <= 4 ==>
                && hw.iomode == WithDio(old(hw.iomode), cmd.channel)
                && hw.pulse == old(hw.pulse)[cmd.channel := TruncDiv(cmd.t[1].nsec, 8) % TWO32]
                && hw.fired == old(hw.fired) + if cmd.flags.now then [cmd.channel] else []
      // the width is in ticks, rounded down
      ensures cmd.channel <= 4 && 0 <= cmd.t[1].nsec < 8 * TWO32 ==>
                8 * hw.pulse[cmd.channel] <= cmd.t[1].nsec < 8 * (hw.pulse[cmd.channel] + 1)
      // an immediate pulse programs nothing; any other is armed for the time given, from the
      // current second on if relative, and with "loop" the channel goes on from there
      ensures cmd.channel <= 4 && cmd.flags.now ==> View() == old(View())
      ensures cmd.channel <= 4 && !cmd.flags.now ==>
                PulseArmed(old(View()), cmd, Ns(cmd.t[0]) + (if cmd.flags.rel then now * GIGA else 0), View())
    {
      hide PulseStep, WithDio, TruncDiv, Ppsg.Second, RingQueue, Start, Newest, PulseArmed, Ns;
      ghost var d := View();
      when := clock[0];
      now := Ppsg.Second(when) % TWO40;
      var i := cmd.channel;
      if i > 4 {
        NoTrigger(d, cmd, now);
        return -EINVAL, now, when;
      }
      SetOutput(i, cmd.t[1], cmd.flags.now);
      Width(cmd.t[1].nsec);
      if cmd.flags.now {
        NoTrigger(d, cmd, now);
        return 0, now, when;
      }
      now, when := Schedule(cmd, clock);
      StepArms(d, cmd, now);
      ret := 0;
    }

    /** The rest of a pulse command that is not immediate. */
    method Schedule(cmd: Cmd, clock: seq<nat>) returns (ghost now: nat, ghost when: nat)
      requires Valid() && |cmd.t| >= 3 && cmd.channel < CHANNELS && !cmd.flags.now
      requires Ppsg.Ordered(clock) && Ppsg.Second(clock[2]) - Ppsg.Second(clock[0]) < 255 * TWO32
      modifies hw`cycle, hw`trigH, hw`trigL, hw`armed, ch[cmd.channel]
      ensures Valid()
      ensures clock[0] <= when <= clock[3] && now == Ppsg.Second(when) % TWO40
      ensures View() == PulseStep(old(View()), cmd, now)
    {
      hide PulseStep, Ppsg.Second, RingQueue, Start, Newest;
      var start;
      start, now, when := StartTime(cmd, clock);
      Arm(cmd, start, now);
    }

    /** Configure a channel as DIO output and set the width of its pulses; an
        immediate pulse needs nothing else. */
    method SetOutput(i: nat, width: Timespec, fire: bool)
      requires Valid() && i < CHANNELS
      modifies hw`iomode, hw`pulse, hw`fired
      ensures Valid() && View() == old(View())
      ensures hw.iomode == WithDio(old(hw.iomode), i)
      ensures hw.pulse == old(hw.pulse)[i := TruncDiv(width.nsec, 8) % TWO32]
      ensures hw.fired == old(hw.fired) + if fire then [i] else []
    {
      hide Shifted, TruncDiv;
      hw.iomode := hw.iomode | Shifted(1, i);
      hw.pulse := hw.pulse[i := TruncDiv(width.nsec, 8) % TWO32];
      hw.fired := hw.fired + if fire then [i] else [];
      Unmoved();
    }

    /** If relative, add the current 40-bit second. */
    method StartTime(cmd: Cmd, clock: seq<nat>) returns (start: Timespec, ghost now: nat, ghost when: nat)
      requires |cmd.t| >= 3
      requires Ppsg.Ordered(clock) && Ppsg.Second(clock[2]) - Ppsg.Second(clock[0]) < 255 * TWO32
      ensures clock[0] <= when <= clock[3] && now == Ppsg.Second(when) % TWO40
      ensures start == Start(cmd, now)
      ensures exists w :: clock[0] <= w <= clock[3] && start == Start(cmd, Ppsg.Second(w) % TWO40)
    {
      hide Ppsg.Second;
      start := cmd.t[0];
      when := clock[0];
      now := Ppsg.Second(when) % TWO40;
      if cmd.flags.rel {
        var second;
        second, when := Ppsg.ReadSecond(clock);
        now := second;
        start := start.(sec := start.sec + second);
      }
    }

    /** The rest of a pulse command, once its start is known. */
    method Arm(cmd: Cmd, start: Timespec, ghost now: nat)
      requires Valid() && |cmd.t| >= 3 && cmd.channel < CHANNELS && !cmd.flags.now && start == Start(cmd, now)
      modifies hw`cycle, hw`trigH, hw`trigL, hw`armed, ch[cmd.channel]
      ensures Valid()
      ensures View() == PulseStep(old(View()), cmd, now)
    {
      hide PulseAt, RingQueue, ToInt32, Start, Dio.View;
      var i := cmd.channel;
      ChannelView(i);
      if cmd.flags.loop {
        ch[i].target := i;
        // one less than asked for: the pulse armed below is not counted down
        ch[i].count := ToInt32(if cmd.value > 0 then cmd.value - 1 else 0);
        ch[i].prevts := start;
        ch[i].delay := cmd.t[2];
      }
      NewPulse(i, start);
      OnlyOne(i);
    }

    /** wrn_dio_cmd_stamp.  The bit that the source tests before anything else is the one
        of F_NOW, so that a request may wait on several channels; the queue it sleeps on
        is then that of the last channel.  A sleeper returns `ret` if a signal comes, and
        otherwise starts over. */
    method CmdStamp(flags: Flags, channel: nat) returns (ret: int, from: nat, ts: seq<Timespec>, sleep: Option<nat>)
      requires Valid() && (!flags.mask ==> channel < CHANNELS)
      modifies ch
      ensures Valid()
      ensures flags.now ==> ret == -EINVAL && ts == [] && View() == old(View())
      ensures !flags.now ==>
                var d, sel := old(View()), Selection(flags, channel);
                && View() == StampStep(d, sel)
                && ts == Stamped(d, sel)
                && (ret == if ts != [] then 0 else if flags.wait then -ERESTARTSYS else -EAGAIN)
                && (ts != [] ==> from == FirstReady(d.chans, sel, 0))
      ensures sleep == if !flags.now && ts == [] && flags.wait then Some(if flags.mask then 4 else channel) else None
      // sixteen stamps of one channel, or all it has; none only if there are none
      ensures !flags.now && ts != [] ==> Took(old(View()), Selection(flags, channel), from, ts, View())
      ensures !flags.now && ts == [] ==>
                && View() == old(View())
                && forall i :: 0 <= i < CHANNELS && i in Selection(flags, channel) ==> View().chans[i].queue == []
    {
      hide StampStep, Stamped, Selection, FirstReady, Dio.View, Took;
      RequestTakes(View(), Selection(flags, channel));
      sleep := None;
      if flags.now {
        return -EINVAL, channel, [], None;
      }
      from, ts := SearchChannels(flags, channel);
      if ts == [] && flags.wait {
        sleep := Some(if flags.mask then 4 else channel);
        return -ERESTARTSYS, from, ts, sleep;
      }
      ret := if ts == [] then -EAGAIN else 0;
    }

    /** The channel loop of the stamp command, for one channel or a mask. */
    method SearchChannels(flags: Flags, channel: nat) returns (from: nat, ts: seq<Timespec>)
      requires Valid() && (!flags.mask ==> channel < CHANNELS)
      modifies ch
      ensures Valid()
      ensures var d, sel := old(View()), Selection(flags, channel);
              && View() == StampStep(d, sel)
              && ts == Stamped(d, sel)
              && (ts != [] ==> from == FirstReady(d.chans, sel, 0))
    {
      ts := [];
      from := channel;
      hide RingQueue, Newest, FirstReady, HasBit, Selection, Batch, Dio.View;
      ghost var d, sel := View(), Selection(flags, channel);
      ChannelView(0);
      var i, last := 0, 4;
      if !flags.mask {
        i, last := channel, channel;
      }
      Selected(flags, channel);
      SkipBetween(d.chans, sel, 0, i);
      while i <= last
        invariant i <= last + 1 <= CHANNELS
        invariant Valid() && ts == []
        invariant forall j :: 0 <= j < CHANNELS ==> unchanged(ch[j])
        invariant FirstReady(d.chans, sel, i) == FirstReady(d.chans, sel, 0)
      {
        ReadyStep(d.chans, sel, i);
        if flags.mask && !HasBit(channel, i) {
          i := i + 1;
          continue;
        }
        Same(i);
        ts := TakeBatch(i);
        if ts != [] {
          from := i;
          OnlyOne(i);
          return;
        }
        i := i + 1;
      }
      NoneReady(d.chans, sel, i);
      Unmoved();
    }

    /** The inner loop of the stamp command: at most N_STAMP stamps of one channel. */
    method TakeBatch(i: nat) returns (ts: seq<Timespec>)
      requires Valid() && i < CHANNELS
      modifies ch[i]
      ensures Valid()
      ensures var q := old(ch[i].Queue());
              && ts == q[..Batch(q)]
              && ch[i].View() == old(ch[i].View()).(queue := q[Batch(q)..])
      ensures ts == [] <==> old(ch[i].Queue()) == []
      ensures ts == [] ==> unchanged(ch[i])
    {
      hide RingQueue, Newest;
      ghost var q, v := ch[i].Queue(), ch[i].View();
      ts := [];
      while |ts| != N_STAMP
        invariant Valid() && |ts| <= |q| && |ts| <= N_STAMP
        invariant ts == q[..|ts|] && ch[i].View() == v.(queue := q[|ts|..])
        invariant ts == [] ==> unchanged(ch[i])
        decreases N_STAMP - |ts|
      {
        RingPop(ch[i].tsbuf[..], ch[i].btail, ch[i].bhead);
        if ch[i].bhead == ch[i].btail {
          break;
        }
        ghost var n := |ts|;
        var x := ch[i].Pop();
        ts := ts + [x];
        assert q[..n] + [q[n]] == q[..n + 1] && q[n..][1..] == q[n + 1..];
      }
    }

    /** wrn_dio_cmd_inout */
    method CmdInout(flags: Flags, channel: nat, value: bv32)
      requires Valid() && (!flags.mask ==> channel < CHANNELS)
      modifies hw`iomode, hw`gpio
      ensures Valid() && View() == old(View())
      ensures Upper(hw.iomode) == Upper(old(hw.iomode))
      ensures forall i :: 0 <= i < CHANNELS && i !in Selection(flags, channel) ==>
                Nibble(hw.iomode, i) == Nibble(old(hw.iomode), i) && hw.gpio[i] == old(hw.gpio)[i]
      ensures forall i :: 0 <= i < CHANNELS && i in Selection(flags, channel) ==>
                InMode(if flags.mask then Field(value, i) else Field(value, 0),
                       Nibble(hw.iomode, i), old(hw.gpio)[i], hw.gpio[i])
    {
      hide HasBit, Selection, Nibble, InMode, Field, Upper;
      var i, last, v := 0, 4, value;
      if !flags.mask {
        i, last, v := channel, channel, MovedUp(value, channel);
      }
      Selected(flags, channel);
      ghost var sel, first := Selection(flags, channel), i;
      while i <= last
        invariant first <= i <= last + 1
        invariant hw.Ok() && Upper(hw.iomode) == Upper(old(hw.iomode))
        invariant forall j :: 0 <= j < CHANNELS && !(first <= j < i && j in sel) ==>
                    Nibble(hw.iomode, j) == Nibble(old(hw.iomode), j) && hw.gpio[j] == old(hw.gpio)[j]
        invariant forall j :: first <= j < i && j in sel ==>
                    InMode(Field(v, j), Nibble(hw.iomode, j), old(hw.gpio)[j], hw.gpio[j])
      {
        if !flags.mask || HasBit(channel, i) {
          SetMode(i, v);
        }
        i := i + 1;
      }
      ThereAndBack(value, channel);
      Unmoved();
    }

    /** The body of the mode loop. */
    method SetMode(i: nat, value: bv32)
      requires Valid() && i < CHANNELS
      modifies hw`iomode, hw`gpio
      ensures hw.Ok() && Upper(hw.iomode) == Upper(old(hw.iomode))
      ensures forall j :: 0 <= j < CHANNELS && j != i ==>
                Nibble(hw.iomode, j) == Nibble(old(hw.iomode), j) && hw.gpio[j] == old(hw.gpio)[j]
      ensures InMode(Field(value, i), Nibble(hw.iomode, i), old(hw.gpio)[i], hw.gpio[i])
    {
      hide Nibble, Shifted, Upper, ModeOf, MovedDown, AskOf, IoMode;
      // bring this channel's four bits down to those of channel 0
      var bits := MovedDown(value, i);
      var ask := AskOf(bits);
      var iomode := SelectMode(bits);
      IoModeRight(bits);
      if !ask.dio {
        hw.gpio := hw.gpio[i := ask.value];
      }
      PutNibble(i, iomode);
    }

    /** Read-modify-write of one nibble of IOMODE. */
    method PutNibble(i: nat, iomode: bv32)
      requires hw.Ok() && i < CHANNELS && iomode & 0xF == iomode
      modifies hw`iomode
      ensures Upper(hw.iomode) == Upper(old(hw.iomode))
      ensures forall j :: 0 <= j < CHANNELS ==>
                Nibble(hw.iomode, j) == if j == i then iomode else Nibble(old(hw.iomode), j)
    {
      hide Nibble, WithNibble, Upper;
      NibbleReplaced(hw.iomode, i, iomode);
      hw.iomode := WithNibble(hw.iomode, i, iomode);
    }

    /** The nibble of a mode request. */
    method SelectMode(bits: bv32) returns (iomode: bv32)
      ensures iomode == IoMode(bits)
    {
      if bits & INOUT_DIO != 0 {
        if bits & INOUT_VALUE != 0 {
          iomode := 2;
        } else {
          iomode := 1;
        }
      } else {
        iomode := 0;
      }
      iomode := (iomode | (if bits & INOUT_TERM != 0 then 8 else 0)) | (if bits & INOUT_OUTPUT == 0 then 4 else 0);
    }
  }

  /** A channel is in the mode asked for; its GPIO output has been set if and only
      if that is where the mode takes its value from. */
  ghost predicate InMode(ask: Ask, nibble: bv32, was: bool, is': bool) {
    && ModeOf(nibble) == Requested(ask)
    && is' == if Requested(ask).source != Gpio then was else ask.value
  }

  /** A single channel's request is shifted to its place and back. */
  lemma ThereAndBack(value: bv32, i: nat)
    ensures i < CHANNELS ==> Field(MovedUp(value, i), i) == Field(value, 0)
  {
  }

  /** One trigger has been programmed, at `start` in nanoseconds.  With "loop" the channel
      goes on from there, one pulse being done; nothing else has changed. */
  ghost predicate PulseArmed(d: DevView, cmd: Cmd, start: int, e: DevView)
    requires d.Ok() && e.Ok() && |cmd.t| >= 3 && cmd.channel < CHANNELS
  {
    var i := cmd.channel;
    && e.armed == d.armed + [TriggerAt(i, start)] && e.fifo == d.fifo
    && (forall j :: 0 <= j < CHANNELS && j != i ==> e.chans[j] == d.chans[j])
    && if !cmd.flags.loop then e.chans[i] == d.chans[i]
       else
         && Ns(e.chans[i].prev) == start && e.chans[i].delay == cmd.t[2]
         && e.chans[i].target == i && e.chans[i].queue == d.chans[i].queue
         && (0 < cmd.value <= TWO32 / 2 ==> e.chans[i].count == cmd.value - 1)
         && (cmd.value == 0 ==> e.chans[i].count == 0)
         && (TWO32 / 2 < cmd.value < TWO32 ==> e.chans[i].count == cmd.value - 1 - TWO32)
  }

  lemma StepArms(d: DevView, cmd: Cmd, now: nat)
    requires d.Ok() && |cmd.t| >= 3 && cmd.channel < CHANNELS && !cmd.flags.now
    ensures PulseArmed(d, cmd, Ns(cmd.t[0]) + (if cmd.flags.rel then now * GIGA else 0), PulseStep(d, cmd, now))
  {
    hide PulseAt, TriggerAt, Start, Ns;
    PulseAtNs(cmd.channel, Start(cmd, now));
    StartNs(cmd, now);
  }

  lemma Width(nsec: int)
    ensures 0 <= nsec < 8 * TWO32 ==>
              8 * (TruncDiv(nsec, 8) % TWO32) <= nsec < 8 * (TruncDiv(nsec, 8) % TWO32 + 1)
  {
  }

  lemma NoTrigger(d: DevView, cmd: Cmd, now: nat)
    requires d.Ok() && |cmd.t| >= 3
    ensures cmd.channel > 4 || cmd.flags.now ==> PulseStep(d, cmd, now) == d
  {
  }

  lemma Selected(flags: Flags, channel: nat)
    ensures forall i :: 0 <= i < CHANNELS ==>
              (i in Selection(flags, channel) <==> if flags.mask then HasBit(channel, i) else i == channel)
  {
  }

  /** Channels that are not selected can be skipped. */
  lemma SkipBetween(chans: seq<ChanView>, sel: set<nat>, i: nat, k: nat)
    requires |chans| == CHANNELS && i <= k < CHANNELS && forall j :: i <= j < k ==> j !in sel
    ensures FirstReady(chans, sel, i) == FirstReady(chans, sel, k)
    decreases k - i
  {
  }

  lemma ReadyStep(chans: seq<ChanView>, sel: set<nat>, i: nat)
    requires |chans| == CHANNELS && i < CHANNELS
    ensures FirstReady(chans, sel, i)
         == if i in sel && chans[i].queue != [] then i else FirstReady(chans, sel, i + 1)
  {
  }

  lemma NoneReady(chans: seq<ChanView>, sel: set<nat>, i: nat)
    requires |chans| == CHANNELS && i <= CHANNELS
    ensures (forall j :: i <= j < CHANNELS ==> j !in sel) ==> FirstReady(chans, sel, i) == CHANNELS
  {
  }

  lemma SomeChannel(mask: set<nat>)
    requires mask != {}
    ensures exists k :: k in mask
  {
  }

  lemma NothingMore(d: DevView, isr: set<nat>, i: nat, n: nat)
    requires d.Ok() && i <= n <= CHANNELS && forall k :: i <= k < n ==> k !in isr
    ensures ServeUpTo(d, isr, i) == ServeUpTo(d, isr, n)
  {
  }

  lemma NothingNew(q: seq<Timespec>)
    requires |q| < BUFFER_LEN
    ensures Newest(q + Stamps([])) == q
  {
  }

  lemma StampsSnoc(q: seq<Timespec>, done: seq<Tag>, tag: Tag)
    ensures Newest(Newest(q + Stamps(done)) + [StampOf(tag)]) == Newest(q + Stamps(done + [tag]))
  {
    hide StampOf;
    NewestTwice(q + Stamps(done), [StampOf(tag)]);
    assert Stamps(done + [tag]) == Stamps(done) + [StampOf(tag)];
    Assoc(q, Stamps(done), [StampOf(tag)]);
  }
}
