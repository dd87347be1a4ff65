/** The two-wire bus between the carrier and the mezzanine EEPROM.

The bus is a wired AND of two open-drain masters of SDA; SCL is driven by the
carrier only.  The EEPROM is a state machine that sees nothing but line edges,
and every edge that UM10204 (the I2C-bus specification) gives a meaning to is
recorded in a trace.  `Hear` is an independent listener for that trace: it
knows the framing rules of UM10204 sections 3.1.3 to 3.1.6 and nothing about
the carrier or the EEPROM. */
module I2cWire {
  import opened Common

  const EEPROM_SIZE := 8192

  /** `b` shifted right by `n` places. */
  function Half(b: nat, n: nat): nat { if n == 0 then b else Half(b, n - 1) / 2 }

  /** The eight bits of the low byte of `b`, most significant first. */
  function Bits(b: nat): (r: seq<bool>)
    ensures |r| == 8
  {
    seq(8, i requires 0 <= i < 8 => Half(b, 7 - i) % 2 == 1)
  }

  function Bit(b: bool): nat { if b then 1 else 0 }

  /** The number whose binary digits are the first `n` of `bits`, most
      significant first. */
  function Digits(bits: seq<bool>, n: nat): nat
    requires n <= |bits|
  {
    if n == 0 then 0 else 2 * Digits(bits, n - 1) + Bit(bits[n - 1])
  }

  function Value(bits: seq<bool>): nat { Digits(bits, |bits|) }

  lemma {:induction false} ValueOfEight(s: seq<bool>)
    requires |s| == 8
    ensures Value(s) == 128 * Bit(s[0]) + 64 * Bit(s[1]) + 32 * Bit(s[2]) + 16 * Bit(s[3])
                        + 8 * Bit(s[4]) + 4 * Bit(s[5]) + 2 * Bit(s[6]) + Bit(s[7])
  {
    assert Digits(s, 0) == 0 && Digits(s, 1) == Bit(s[0]);
    assert Digits(s, 2) == 2 * Bit(s[0]) + Bit(s[1]);
    assert Digits(s, 4) == 4 * Digits(s, 2) + 2 * Bit(s[2]) + Bit(s[3]);
    assert Digits(s, 6) == 4 * Digits(s, 4) + 2 * Bit(s[4]) + Bit(s[5]);
    assert Digits(s, 8) == 4 * Digits(s, 6) + 2 * Bit(s[6]) + Bit(s[7]);
  }

  /** Sending a byte bit by bit and collecting the bits gives the byte back. */
  lemma {:induction false} BitsValue(b: nat)
    ensures Value(Bits(b)) == b % 256
  {
    hide Bits, Half, Digits;
    var s := Bits(b);
    EightHalves(b);
    ValueOfEight(s);
    forall i | 0 <= i < 8
      ensures Bit(s[i]) == Half(b, 7 - i) % 2
    {
      BitAt(b, i);
    }
  }

  lemma EightHalves(b: nat)
    ensures b % 256 == 128 * (Half(b, 7) % 2) + 64 * (Half(b, 6) % 2) + 32 * (Half(b, 5) % 2) + 16 * (Half(b, 4) % 2)
                       + 8 * (Half(b, 3) % 2) + 4 * (Half(b, 2) % 2) + 2 * (Half(b, 1) % 2) + Half(b, 0) % 2
    ensures b / 128 == Half(b, 7)
  {
    assert Half(b, 1) == Half(b, 0) / 2;
    assert Half(b, 2) == Half(b, 1) / 2;
    assert Half(b, 3) == Half(b, 2) / 2;
    assert Half(b, 4) == Half(b, 3) / 2;
    assert Half(b, 5) == Half(b, 4) / 2;
    assert Half(b, 6) == Half(b, 5) / 2;
    assert Half(b, 7) == Half(b, 6) / 2;
    assert Half(b, 8) == Half(b, 7) / 2;
  }

  /** ... and the other way round: eight collected bits are the bits of their value. */
  lemma {:induction false} ValueBits(s: seq<bool>)
    requires |s| == 8
    ensures Value(s) < 256
    ensures Bits(Value(s)) == s
  {
    hide Half, Bits, Digits;
    ValueOfEight(s);
    var t := Bits(Value(s));
    forall i | 0 <= i < 8
      ensures t[i] == s[i]
    {
      HalfDigits(s, 8, 7 - i);
      BitAt(Value(s), i);
      LastDigit(s, i + 1);
    }
  }

  lemma BitAt(b: nat, i: nat)
    requires i < 8
    ensures Bits(b)[i] == (Half(b, 7 - i) % 2 == 1)
  {
  }

  lemma LastDigit(s: seq<bool>, n: nat)
    requires 0 < n <= |s|
    ensures Digits(s, n) % 2 == Bit(s[n - 1])
  {
  }

  lemma {:induction false} HalfDigits(s: seq<bool>, n: nat, k: nat)
    requires k <= n <= |s|
    ensures Half(Digits(s, n), k) == Digits(s, n - k)
  {
    if k > 0 {
      HalfDigits(s, n, k - 1);
    }
  }

  // ------------------------------------------------------------- the EEPROM

  /** Which byte of a transaction the EEPROM is listening to; `Low` remembers the
      first byte of the memory address. */
  datatype Field = Device | High | Low(high: nat) | Data

  datatype Phase =
    | Deaf                               // not addressed: wait for a START
    | Rx(field: Field, bits: seq<bool>)  // collecting the bits of a byte
    | Acking(field: Field, byte: nat)    // pulling SDA low during the ninth clock
    | Tx(bits: seq<bool>)                // driving bits[0]; the rest follows
    | TxDone                             // SDA released for the reader's ninth bit
    | TxAck(more: bool)                  // ... which has been sampled

  /** `latch` is the memory as it will be once the transaction is closed by a
      STOP.  `answers` says, for each future byte that the EEPROM receives, whether
      it is acknowledged (UM10204 section 3.1.6 leaves that to the receiver): a
      chip that is still busy with a write cycle, or that fails in any other way,
      refuses some of them.  A list that has run out means "acknowledge".  A byte
      that is refused has no effect, and neither has what follows it up to the next
      START; the address counter moves once both address bytes are there. */
  datatype Chip = Chip(addr: nat, mem: seq<Byte>, latch: seq<Byte>, ptr: nat, phase: Phase, answers: seq<bool>)
  {
    ghost predicate Ok() {
      && addr < 128
      && |mem| == |latch| == EEPROM_SIZE
      && ptr < EEPROM_SIZE
      && (phase.Rx? ==> |phase.bits| <= 8)
      && (phase.Acking? ==> phase.byte < 256)
      && (phase.Tx? ==> 0 < |phase.bits| <= 8)
    }

    /** The EEPROM's half of SDA: true means released. */
    predicate Drive() {
      match phase
      case Acking(_, _) => false
      case Tx(bits) => bits == [] || bits[0]
      case _ => true
    }

    function Start(): Chip { this.(phase := Rx(Device, []), latch := mem) }

    function Stop(): Chip { this.(phase := Deaf, mem := latch) }

    function Rise(sda: bool): Chip {
      match phase
      case Rx(f, bits) => if |bits| < 8 then this.(phase := Rx(f, bits + [sda])) else this
      case TxDone => this.(phase := TxAck(!sda))
      case _ => this
    }

    function Fall(): Chip
      requires Ok()
    {
      match phase
      case Rx(f, bits) => if |bits| == 8 then Judge(f, Value(bits)) else this
      case Acking(f, b) => Accept(f, b)
      case Tx(bits) => this.(phase := if |bits| == 1 then TxDone else Tx(bits[1..]))
      case TxAck(more) => if more then Load() else this.(phase := Deaf)
      case _ => this
    }

    /** Is byte `b` in position `f` meant for this EEPROM? */
    predicate Named(f: Field, b: nat) { f == Device ==> b / 2 == addr }

    /** Does the EEPROM acknowledge it? */
    predicate Willing(f: Field, b: nat) { Named(f, b) && (answers == [] || answers[0]) }

    /** A byte that is meant for this EEPROM uses up an answer, whatever that is. */
    function Judge(f: Field, b: nat): Chip {
      this.(phase := if Willing(f, b) then Acking(f, b % 256) else Deaf,
            answers := if Named(f, b) && answers != [] then answers[1..] else answers)
    }

    function Accept(f: Field, b: nat): Chip
      requires Ok() && b < 256
    {
      match f
      case Device => if b % 2 == 1 then Load() else this.(phase := Rx(High, []))
      case High => this.(phase := Rx(Low(b), []))
      case Low(high) => this.(phase := Rx(Data, []), ptr := (256 * high + b) % EEPROM_SIZE)
      case Data => this.(phase := Rx(Data, []), latch := latch[ptr := b], ptr := (ptr + 1) % EEPROM_SIZE)
    }

    /** Put the next byte of the memory on the wire and advance the address. */
    function Load(): Chip
      requires Ok()
    {
      this.(phase := Tx(Bits(mem[ptr])), ptr := (ptr + 1) % EEPROM_SIZE)
    }

    // The same machine one byte at a time.

    /** Ready for the first bit of a byte from the carrier. */
    predicate Listening() { phase.Deaf? || (phase.Rx? && phase.bits == []) }

    predicate Acks(b: nat) { phase.Rx? && Willing(phase.field, b) }

    /** Nine clocks that carry byte `b` to the EEPROM. */
    function Take(b: Byte): (c: Chip)
      requires Ok()
    {
      if !phase.Rx? then this
      else
        var c := Judge(phase.field, b);
        if c.phase.Acking? then c.Accept(phase.field, b) else c
    }

    predicate Talking() { phase.Deaf? || (phase.Tx? && |phase.bits| == 8) }

    /** The eight bits a reader samples from now on. */
    function Offered(): (r: seq<bool>)
      requires Talking()
      ensures |r| == 8
    {
      if phase.Tx? then phase.bits else Bits(255)
    }

    /** Nine clocks that carry a byte from the EEPROM, acknowledged or not. */
    function Next(ack: bool): Chip
      requires Ok()
    {
      if !phase.Tx? then this else if ack then Load() else this.(phase := Deaf)
    }
  }

  /** The chip never moves SDA while SCL is high (UM10204 section 3.1.3): its
      half of the line is the same before and after a rising edge, so whatever
      SDA does during the high period was done by the carrier. */
  lemma ChipKeepsDataValid(c: Chip, sda: bool)
    requires c.Ok()
    ensures c.Rise(sda).Drive() == c.Drive()
    ensures c.Rise(sda).Ok()
  {
  }

  lemma EdgesKeepOk(c: Chip)
    requires c.Ok()
    ensures c.Start().Ok() && c.Stop().Ok() && c.Fall().Ok()
  {
  }

  // ---------------------------------------------------------- the wire trace

  datatype Event = Start | Stop | Rise(sda: bool) | Fall

  class Bus {
    var sda: bool  // the carrier's half of SDA, true = released
    var scl: bool
    var chip: Chip
    var trace: seq<Event>

    constructor (chip: Chip)
      requires chip.Ok() && chip.phase.Deaf? && chip.latch == chip.mem
      ensures Idle() && this.chip == chip && trace == []
    {
      sda, scl, this.chip, trace := true, true, chip, [];
    }

    predicate Line()
      reads this
    { sda && chip.Drive() }

    /** Both lines are high, nobody is addressed and no write is pending. */
    ghost predicate Idle()
      reads this
    { chip.Ok() && scl && Line() && chip.phase.Deaf? && chip.latch == chip.mem }

    method SetSda(v: bool)
      requires chip.Ok()
      modifies this
      ensures chip.Ok() && sda == v && scl == old(scl)
      ensures scl && old(Line()) && !(v && old(chip).Drive()) ==>
                chip == old(chip).Start() && trace == old(trace) + [Start]
      ensures scl && !old(Line()) && v && old(chip).Drive() ==>
                chip == old(chip).Stop() && trace == old(trace) + [Stop]
      ensures !scl || old(Line()) == (v && old(chip).Drive()) ==> chip == old(chip) && trace == old(trace)
    {
      var before := Line();
      sda := v;
      EdgesKeepOk(chip);
      if scl && before && !Line() {
        chip, trace := chip.Start(), trace + [Start];
      } else if scl && !before && Line() {
        chip, trace := chip.Stop(), trace + [Stop];
      }
    }

    method SetScl(v: bool)
      requires chip.Ok()
      modifies this
      ensures chip.Ok() && scl == v && sda == old(sda)
      ensures !old(scl) && v ==>
                chip == old(chip).Rise(old(Line())) && trace == old(trace) + [Rise(old(Line()))]
      ensures old(scl) && !v ==> chip == old(chip).Fall() && trace == old(trace) + [Fall]
      ensures old(scl) == v ==> chip == old(chip) && trace == old(trace)
    {
      EdgesKeepOk(chip);
      if !scl && v {
        ChipKeepsDataValid(chip, Line());
        trace := trace + [Rise(Line())];
        chip := chip.Rise(Line());
      } else if scl && !v {
        chip, trace := chip.Fall(), trace + [Fall];
      }
      scl := v;
    }

    method GetSda() returns (v: bool)
      ensures v == Line()
    { v := Line(); }
  }

  // ------------------------------------------------ what a transfer looks like

  /** One byte on the wire and whether its receiver acknowledged it. */
  datatype Octet = Octet(byte: nat, ack: bool)

  /** Everything between a START and the next STOP. */
  type Transfer = seq<Octet>

  /** Clock pulses for the first `n` of `bits`. */
  function BitWire(bits: seq<bool>, n: nat): (r: seq<Event>)
    requires n <= |bits|
    ensures |r| == 2 * n
  {
    if n == 0 then [] else BitWire(bits, n - 1) + [Rise(bits[n - 1]), Fall]
  }

  /** Nine clock pulses, the eight data bits most significant first. */
  function ByteWire(o: Octet): (r: seq<Event>)
    ensures |r| == 18
  {
    var bits := Bits(o.byte);
    BitWire(bits, |bits|) + [Rise(!o.ack), Fall]
  }

  /** The first `n` bytes of a transfer. */
  function BytesWire(t: Transfer, n: nat): (r: seq<Event>)
    requires n <= |t|
    ensures |r| == 18 * n
  {
    if n == 0 then [] else BytesWire(t, n - 1) + ByteWire(t[n - 1])
  }

  function TransferWire(t: Transfer): seq<Event> {
    [Start, Fall] + BytesWire(t, |t|) + [Rise(false), Stop]
  }

  /** The first `n` transfers of a session. */
  function TransfersWire(ts: seq<Transfer>, n: nat): seq<Event>
    requires n <= |ts|
  {
    if n == 0 then [] else TransfersWire(ts, n - 1) + TransferWire(ts[n - 1])
  }

  function SessionWire(ts: seq<Transfer>): seq<Event> { TransfersWire(ts, |ts|) }

  lemma {:induction false} BytesWirePrefix(t: Transfer, u: Transfer, n: nat)
    requires n <= |t| && n <= |u| && t[..n] == u[..n]
    ensures BytesWire(t, n) == BytesWire(u, n)
  {
    if n > 0 {
      assert t[n - 1] == t[..n][n - 1] == u[..n][n - 1] == u[n - 1];
      assert t[..n - 1] == t[..n][..n - 1] == u[..n][..n - 1] == u[..n - 1];
      BytesWirePrefix(t, u, n - 1);
    }
  }

  lemma {:induction false} BytesWireSnoc(t: Transfer, o: Octet)
    ensures BytesWire(t + [o], |t + [o]|) == BytesWire(t, |t|) + ByteWire(o)
  {
    BytesWirePrefix(t + [o], t, |t|);
  }

  lemma {:induction false} TransfersWireSplit(a: seq<Transfer>, b: seq<Transfer>, n: nat)
    requires |a| <= n <= |a| + |b|
    ensures TransfersWire(a + b, n) == TransfersWire(a, |a|) + TransfersWire(b, n - |a|)
  {
    hide BytesWire, TransferWire;
    if n > |a| {
      TransfersWireSplit(a, b, n - 1);
    } else {
      TransfersWirePrefix(a, b, n);
    }
  }

  lemma {:induction false} TransfersWirePrefix(a: seq<Transfer>, b: seq<Transfer>, n: nat)
    requires n <= |a|
    ensures TransfersWire(a + b, n) == TransfersWire(a, n)
  {
    hide BytesWire, TransferWire;
    if n > 0 {
      TransfersWirePrefix(a, b, n - 1);
    }
  }

  lemma {:induction false} SessionWireConcat(a: seq<Transfer>, b: seq<Transfer>)
    ensures SessionWire(a + b) == SessionWire(a) + SessionWire(b)
  {
    TransfersWireSplit(a, b, |a + b|);
  }

  lemma SessionWireOne(t: Transfer)
    ensures SessionWire([t]) == TransferWire(t)
  {
    assert TransfersWire([t], 1) == TransfersWire([t], 0) + TransferWire(t);
  }

  lemma SessionWireTwo(x: Transfer, y: Transfer)
    ensures SessionWire([x, y]) == TransferWire(x) + TransferWire(y)
  {
    assert TransfersWire([x, y], 1) == TransfersWire([x, y], 0) + TransferWire(x);
  }

  // ---------------------------------------------------------- the listener

  /** A bystander on the bus.  `Open` collects the bytes of the transfer that is
      in progress and the bits of the byte that is; `Broken` means that the trace
      broke a framing rule. */
  datatype Ear =
    | Quiet(done: seq<Transfer>)
    | Open(done: seq<Transfer>, bytes: Transfer, bits: seq<bool>, high: bool)
    | Broken

  function HearOne(e: Ear, ev: Event): Ear {
    match (e, ev)
    case (Quiet(done), Start) => Open(done, [], [], true)
    case (Open(done, bytes, bits, high), Rise(b)) =>
      if high || |bits| >= 9 then Broken else Open(done, bytes, bits + [b], true)
    case (Open(done, bytes, bits, high), Fall) =>
      if !high then Broken
      else if |bits| == 9 then Open(done, bytes + [Octet(Value(bits[..8]), !bits[8])], [], false)
      else Open(done, bytes, bits, false)
    // the rising edge that prepares a STOP is the only one that is not a data bit
    case (Open(done, bytes, bits, high), Stop) =>
      if high && bits == [false] then Quiet(done + [bytes]) else Broken
    case _ => Broken
  }

  function Hear(e: Ear, trace: seq<Event>): Ear {
    if trace == [] then e else HearOne(Hear(e, trace[..|trace| - 1]), trace[|trace| - 1])
  }

  lemma {:induction false} HearConcat(e: Ear, a: seq<Event>, b: seq<Event>)
    ensures Hear(e, a + b) == Hear(Hear(e, a), b)
  {
    if b == [] {
      assert a + b == a;
    } else {
      var n := |b| - 1;
      assert (a + b)[..|a + b| - 1] == a + b[..n];
      HearConcat(e, a, b[..n]);
    }
  }

  lemma HearTwo(e: Ear, x: Event, y: Event)
    ensures Hear(e, [x, y]) == HearOne(HearOne(e, x), y)
  {
    assert [x, y][..1] == [x] && [x][..0] == [];
    assert Hear(e, [x]) == HearOne(Hear(e, []), x);
  }

  lemma {:induction false} HearBits(done: seq<Transfer>, bytes: Transfer, s: seq<bool>, n: nat)
    requires n <= |s| <= 8
    ensures Hear(Open(done, bytes, [], false), BitWire(s, n)) == Open(done, bytes, s[..n], false)
  {
    hide HearOne;
    if n > 0 {
      HearBits(done, bytes, s, n - 1);
      HearConcat(Open(done, bytes, [], false), BitWire(s, n - 1), [Rise(s[n - 1]), Fall]);
      HearPulse(done, bytes, s[..n - 1], s[n - 1]);
      assert s[..n - 1] + [s[n - 1]] == s[..n];
    }
  }

  lemma HearPulse(done: seq<Transfer>, bytes: Transfer, s: seq<bool>, b: bool)
    requires |s| < 8
    ensures Hear(Open(done, bytes, s, false), [Rise(b), Fall]) == Open(done, bytes, s + [b], false)
  {
    hide Value;
    HearTwo(Open(done, bytes, s, false), Rise(b), Fall);
  }

  lemma {:induction false} HearByte(done: seq<Transfer>, bytes: Transfer, o: Octet)
    requires o.byte < 256
    ensures Hear(Open(done, bytes, [], false), ByteWire(o)) == Open(done, bytes + [o], [], false)
  {
    hide BitWire, Bits, Value, HearOne;
    var e := Open(done, bytes, [], false);
    var s := Bits(o.byte);
    HearBits(done, bytes, s, 8);
    assert s[..8] == s;
    HearConcat(e, BitWire(s, 8), [Rise(!o.ack), Fall]);
    HearNinth(done, bytes, s, o);
  }

  lemma HearNinth(done: seq<Transfer>, bytes: Transfer, s: seq<bool>, o: Octet)
    requires o.byte < 256 && s == Bits(o.byte)
    ensures Hear(Open(done, bytes, s, false), [Rise(!o.ack), Fall]) == Open(done, bytes + [o], [], false)
  {
    hide Bits, Half, Digits;
    HearTwo(Open(done, bytes, s, false), Rise(!o.ack), Fall);
    assert (s + [!o.ack])[..8] == s;
    BitsValue(o.byte);
  }

  lemma {:induction false} HearBytes(done: seq<Transfer>, t: Transfer, n: nat)
    requires n <= |t|
    requires forall j :: 0 <= j < |t| ==> t[j].byte < 256
    ensures Hear(Open(done, [], [], false), BytesWire(t, n)) == Open(done, t[..n], [], false)
  {
    hide BitWire, ByteWire, HearOne, Value;
    if n > 0 {
      HearBytes(done, t, n - 1);
      HearConcat(Open(done, [], [], false), BytesWire(t, n - 1), ByteWire(t[n - 1]));
      HearByte(done, t[..n - 1], t[n - 1]);
      assert t[..n - 1] + [t[n - 1]] == t[..n];
    }
  }

  ghost predicate AllBytes(ts: seq<Transfer>) {
    forall i, j :: 0 <= i < |ts| && 0 <= j < |ts[i]| ==> ts[i][j].byte < 256
  }

  lemma {:induction false} HearTransfer(done: seq<Transfer>, t: Transfer)
    requires forall j :: 0 <= j < |t| ==> t[j].byte < 256
    ensures Hear(Quiet(done), TransferWire(t)) == Quiet(done + [t])
  {
    hide BytesWire, Value;
    HearTwo(Quiet(done), Start, Fall);
    HearConcat(Quiet(done), [Start, Fall], BytesWire(t, |t|));
    HearBytes(done, t, |t|);
    assert t[..|t|] == t;
    HearConcat(Quiet(done), [Start, Fall] + BytesWire(t, |t|), [Rise(false), Stop]);
    HearTwo(Open(done, t, [], false), Rise(false), Stop);
  }

  /** Wire discipline: whoever listens to a session hears exactly its transfers.
      SDA moved during a high period only at a START or a STOP, every byte took
      nine clocks with its most significant bit first, and the bus was left
      free. */
  lemma {:induction false} SessionIsHeard(done: seq<Transfer>, ts: seq<Transfer>)
    requires AllBytes(ts)
    ensures Hear(Quiet(done), SessionWire(ts)) == Quiet(done + ts)
  {
    TransfersAreHeard(done, ts, |ts|);
    assert ts[..|ts|] == ts;
  }

  lemma {:induction false} TransfersAreHeard(done: seq<Transfer>, ts: seq<Transfer>, n: nat)
    requires AllBytes(ts) && n <= |ts|
    ensures Hear(Quiet(done), TransfersWire(ts, n)) == Quiet(done + ts[..n])
  {
    hide TransferWire, HearOne, Value;
    if n == 0 {
      assert done + ts[..0] == done;
    } else {
      TransfersAreHeard(done, ts, n - 1);
      HearConcat(Quiet(done), TransfersWire(ts, n - 1), TransferWire(ts[n - 1]));
      HearTransfer(done + ts[..n - 1], ts[n - 1]);
      assert done + ts[..n - 1] + [ts[n - 1]] == done + ts[..n];
    }
  }
}
