/** The carrier's bit-banged I2C master and its EEPROM driver (kernel/spec-i2c.c).

Every method below toggles the two lines one at a time, like the source, and is
proved to do to the EEPROM of `I2cWire` what a read or a write of a byte array
would do. */
module SpecI2c {
  import opened Common
  import opened I2cWire

  const EIO := 5
  const ENOMEM := 12
  const EINVAL := 22

  // ------------------------------------------------------------- line level

  method Mi2cStart(bus: Bus)
    requires bus.Idle()
    modifies bus
    ensures !bus.scl && !bus.sda && bus.chip == old(bus.chip).Start() && bus.chip.Ok()
    ensures bus.trace == old(bus.trace) + [Start, Fall]
  {
    bus.SetSda(false);
    bus.SetScl(false);
  }

  /** The STOP only happens if the EEPROM is not holding SDA low. */
  method Mi2cStop(bus: Bus)
    requires !bus.scl && bus.chip.Ok()
    modifies bus
    ensures bus.scl && bus.sda && bus.chip.Ok()
    ensures old(bus.chip).Drive() ==>
              bus.chip == old(bus.chip).Rise(false).Stop() && bus.trace == old(bus.trace) + [Rise(false), Stop]
    ensures !old(bus.chip).Drive() ==>
              bus.chip == old(bus.chip).Rise(false) && bus.trace == old(bus.trace) + [Rise(false)]
  {
    ChipKeepsDataValid(bus.chip, false);
    bus.SetSda(false);
    bus.SetScl(true);
    bus.SetSda(true);
  }

  /** One clock pulse with `b` on the carrier's half of SDA. */
  method SendBit(bus: Bus, b: bool)
    requires !bus.scl && bus.chip.Ok()
    modifies bus
    ensures !bus.scl && bus.sda == b && bus.chip.Ok()
    ensures var line := b && old(bus.chip).Drive();
            && bus.chip == old(bus.chip).Rise(line).Fall()
            && bus.trace == old(bus.trace) + [Rise(line), Fall]
  {
    bus.SetSda(b);
    bus.SetScl(true);
    bus.SetScl(false);
  }

  /** One clock pulse, and the state of SDA during its high period. */
  method SampleBit(bus: Bus) returns (b: bool)
    requires !bus.scl && bus.sda && bus.chip.Ok()
    modifies bus
    ensures !bus.scl && bus.sda && bus.chip.Ok()
    ensures b == old(bus.chip).Drive()
    ensures bus.chip == old(bus.chip).Rise(b).Fall()
    ensures bus.trace == old(bus.trace) + [Rise(b), Fall]
  {
    ChipKeepsDataValid(bus.chip, bus.chip.Drive());
    bus.SetScl(true);
    b := bus.GetSda();
    bus.SetScl(false);
  }

  function DataShifted(data: nat, n: nat): nat { if n == 0 then data else 2 * DataShifted(data, n - 1) }

  /** Bit 7 of `data << i` is the bit that has to go out in clock `i`. */
  lemma {:induction false} ShiftedBit(data: nat, i: nat)
    requires i < 8
    ensures DataShifted(data, i) / 128 % 2 == 1 <==> Bits(data)[i]
  {
    EightHalves(DataShifted(data, i));
    ShiftedHalf(data, i, 7);
  }

  lemma {:induction false} ShiftedHalf(data: nat, i: nat, n: nat)
    requires i <= n
    ensures Half(DataShifted(data, i), n) == Half(data, n - i)
  {
    if i > 0 {
      ShiftedHalf(data, i - 1, n - 1);
      DoubledHalf(DataShifted(data, i - 1), n - 1);
    }
  }

  lemma {:induction false} DoubledHalf(x: nat, n: nat)
    ensures Half(2 * x, n + 1) == Half(x, n)
  {
    if n > 0 {
      DoubledHalf(x, n - 1);
    } else {
      assert Half(2 * x, 0) == 2 * x;
    }
  }

  /** The EEPROM after the first `i` bits of a byte. */
  ghost function AfterBits(c: Chip, bits: seq<bool>, i: nat): Chip
    requires i <= |bits| == 8
  {
    if !c.phase.Rx? then c
    else if i < 8 then c.(phase := Rx(c.phase.field, bits[..i]))
    else c.Judge(c.phase.field, Value(bits))
  }

  lemma BitStep(c: Chip, bits: seq<bool>, i: nat)
    requires c.Ok() && c.Listening() && |bits| == 8 && i < 8
    ensures AfterBits(c, bits, i).Drive()
    ensures AfterBits(c, bits, i).Rise(bits[i]).Fall() == AfterBits(c, bits, i + 1)
  {
    hide Digits;
    assert bits[..i] + [bits[i]] == bits[..i + 1];
    assert bits[..8] == bits;
  }

  /** The ninth clock pulse: the EEPROM's answer, and what it does with the byte. */
  lemma AckStep(c: Chip, bits: seq<bool>, b: Byte)
    requires c.Ok() && c.Listening() && |bits| == 8 && Value(bits) == b
    ensures var j := AfterBits(c, bits, 8);
            && j.Ok() && (j.Drive() <==> !c.Acks(b))
            && j.Rise(j.Drive()).Fall() == c.Take(b)
  {
    hide Digits, Half, Bits;
  }

  method Mi2cPutByte(bus: Bus, data: nat) returns (ret: int)
    requires !bus.scl && bus.chip.Ok() && bus.chip.Listening()
    modifies bus
    ensures !bus.scl && !bus.sda && bus.chip.Ok()
    ensures ret == if old(bus.chip).Acks(data % 256) then 0 else -EIO
    ensures bus.chip == old(bus.chip).Take(data % 256)
    ensures bus.trace == old(bus.trace) + ByteWire(Octet(data % 256, ret == 0))
  {
    hide Half, Digits, Bits, Chip.Take, Chip.Acks, Chip.Fall;
    ghost var c, t, bits := bus.chip, bus.trace, Bits(data);
    var d := data;
    for i := 0 to 8
      invariant !bus.scl && bus.chip.Ok()
      invariant d == DataShifted(data, i)
      invariant bus.chip == AfterBits(c, bits, i)
      invariant bus.trace == t + BitWire(bits, i)
    {
      ShiftedBit(data, i);
      BitStep(c, bits, i);
      SendBit(bus, d / 128 % 2 == 1);
      d := 2 * d;
    }
    BitsValue(data);
    SameLowByte(data);
    AckStep(c, bits, data % 256);
    bus.SetSda(true);
    var ack := SampleBit(bus);
    bus.SetSda(false);
    ret := if ack then -EIO else 0;
  }

  lemma SameLowByte(data: nat)
    ensures Bits(data) == Bits(data % 256)
  {
    BitsValue(data);
    ValueBits(Bits(data));
  }

  /** The EEPROM after it has sent `i` bits of a byte. */
  ghost function AfterSent(c: Chip, i: nat): Chip
    requires i <= 8 && c.Talking()
  {
    if c.phase.Deaf? then c
    else c.(phase := if i < 8 then Tx(c.phase.bits[i..]) else TxDone)
  }

  lemma SentStep(c: Chip, i: nat, sda: bool)
    requires c.Ok() && c.Talking() && i < 8
    ensures AfterSent(c, i).Ok()
    ensures AfterSent(c, i).Drive() == c.Offered()[i]
    ensures AfterSent(c, i).Rise(sda) == AfterSent(c, i)
    ensures AfterSent(c, i).Fall() == AfterSent(c, i + 1)
  {
    if c.phase.Deaf? {
      HalfOfOnes();
    }
  }

  lemma HalfOfOnes()
    ensures Half(255, 0) == 255 && Half(255, 1) == 127 && Half(255, 2) == 63 && Half(255, 3) == 31
    ensures Half(255, 4) == 15 && Half(255, 5) == 7 && Half(255, 6) == 3 && Half(255, 7) == 1
  {
  }

  method Mi2cGetByte(bus: Bus, ack: bool) returns (data: nat)
    requires !bus.scl && bus.chip.Ok() && bus.chip.Talking()
    modifies bus
    ensures !bus.scl && !bus.sda && bus.chip.Ok()
    ensures data < 256 && Bits(data) == old(bus.chip).Offered()
    ensures bus.chip == old(bus.chip).Next(ack)
    ensures bus.trace == old(bus.trace) + ByteWire(Octet(data, ack))
  {
    ghost var c, t, bits := bus.chip, bus.trace, bus.chip.Offered();
    data := 0;
    bus.SetScl(false);
    bus.SetSda(true);
    assert c.phase.Tx? ==> c.phase.bits[0..] == c.phase.bits;
    for i := 0 to 8
      invariant !bus.scl && bus.sda && bus.chip.Ok()
      invariant data == Digits(bits, i)
      invariant bus.chip == AfterSent(c, i)
      invariant bus.trace == t + BitWire(bits, i)
    {
      SentStep(c, i, bits[i]);
      data := 2 * data;
      var sda := SampleBit(bus);
      if sda {
        data := data + 1;
      }
    }
    ValueBits(bits);
    SendBit(bus, !ack);
    bus.SetSda(false);
  }

  // ------------------------------------------------------ transaction level

  predicate Ready(answers: seq<bool>) { answers == [] || answers[0] }

  function Pop(answers: seq<bool>): seq<bool> { if answers == [] then [] else answers[1..] }

  /** How many of the next `n` bytes of a transaction are acknowledged: none after a
      refusal. */
  function Acknowledged(answers: seq<bool>, n: nat): (k: nat)
    ensures k <= n
  {
    if n == 0 || !Ready(answers) then 0 else 1 + Acknowledged(Pop(answers), n - 1)
  }

  /** ... and the answers left once they have been sent. */
  function Remaining(answers: seq<bool>, n: nat): (r: seq<bool>)
    ensures |r| <= |answers|
  {
    if n == 0 then answers else if Ready(answers) then Remaining(Pop(answers), n - 1) else Pop(answers)
  }

  lemma OneAnswer(answers: seq<bool>)
    ensures Acknowledged(answers, 0) == 0 && Remaining(answers, 0) == answers
    ensures Acknowledged(answers, 1) == (if Ready(answers) then 1 else 0) && Remaining(answers, 1) == Pop(answers)
  {
    assert Acknowledged(Pop(answers), 0) == 0 && Remaining(Pop(answers), 0) == Pop(answers);
  }

  lemma ThreeAnswers(answers: seq<bool>)
    ensures var p, q := Pop(answers), Pop(Pop(answers));
            && Acknowledged(answers, 3)
               == (if !Ready(answers) then 0 else if !Ready(p) then 1 else if !Ready(q) then 2 else 3)
            && Remaining(answers, 3) == if !Ready(answers) then p else if !Ready(p) then q else Pop(q)
  {
    var p := Pop(answers);
    OneAnswer(Pop(p));
    assert Acknowledged(p, 2) == if Ready(p) then 1 + Acknowledged(Pop(p), 1) else 0;
    assert Remaining(p, 2) == if Ready(p) then Remaining(Pop(p), 1) else Pop(p);
  }

  /** A fourth byte gets an answer if the first three got theirs. */
  lemma FourAnswers(answers: seq<bool>)
    ensures var three := Acknowledged(answers, 3) == 3;
            && Acknowledged(answers, 4)
               == (if three && Ready(Remaining(answers, 3)) then 4 else Acknowledged(answers, 3))
            && Remaining(answers, 4) == if three then Pop(Remaining(answers, 3)) else Remaining(answers, 3)
  {
    hide Ready, Pop;
    ThreeAnswers(answers);
    ThreeAnswers(Pop(answers));
    assert Acknowledged(answers, 4) == if Ready(answers) then 1 + Acknowledged(Pop(answers), 3) else 0;
  }

  /** Does the EEPROM acknowledge the next byte that names device `a`? */
  predicate Answers(c: Chip, a: nat) { c.addr == a % 128 && Ready(c.answers) }

  /** How many bytes of a transaction of `n` that names device `a` does it acknowledge? */
  function Taken(c: Chip, a: nat, n: nat): nat { if c.addr == a % 128 then Acknowledged(c.answers, n) else 0 }

  function Later(c: Chip, a: nat, n: nat): seq<bool> {
    if c.addr == a % 128 then Remaining(c.answers, n) else c.answers
  }

  /** The EEPROM at rest, with its address counter at `ptr`. */
  function AtRest(c: Chip, ptr: nat, answers: seq<bool>): Chip
  {
    c.(latch := c.mem, ptr := ptr, phase := Deaf, answers := answers)
  }

  lemma DeviceByte(c: Chip, a: nat)
    requires c.Ok()
    ensures c.Start().Acks(2 * a % 256) <==> Answers(c, a)
    ensures c.Start().Acks((2 * a + 1) % 256) <==> Answers(c, a)
    ensures c.Start().Take(2 * a % 256)
         == c.Start().(phase := if Answers(c, a) then Rx(High, []) else Deaf, answers := Later(c, a, 1))
    ensures c.Start().Take((2 * a + 1) % 256)
         == var s := c.Start().(phase := Deaf, answers := Later(c, a, 1));
            if Answers(c, a) then s.Load() else s
  {
    hide Half, Bits;
    OneAnswer(c.answers);
    DeviceBits(a);
  }

  lemma DeviceBits(a: nat)
    ensures 2 * a % 256 == 2 * (a % 128) && (2 * a + 1) % 256 == 2 * (a % 128) + 1
    ensures 2 * a % 256 / 2 == (2 * a + 1) % 256 / 2 == a % 128
    ensures 2 * a % 256 % 2 == 0 && (2 * a + 1) % 256 % 2 == 1
  {
  }

  /** Where the address counter stands once device `a` has been sent a memory address:
      it has only moved if all three bytes were acknowledged. */
  function PointerAfter(c: Chip, a: nat, offset: nat): nat {
    if Taken(c, a, 3) == 3 then offset % EEPROM_SIZE else c.ptr
  }

  /** The EEPROM at that moment, and after a STOP. */
  function Opened(c: Chip, a: nat, offset: nat): Chip {
    Pointed(c, a, offset).(phase := if Taken(c, a, 3) == 3 then Rx(Data, []) else Deaf)
  }

  function Pointed(c: Chip, a: nat, offset: nat): Chip { AtRest(c, PointerAfter(c, a, offset), Later(c, a, 3)) }

  lemma OpenedStops(c: Chip, a: nat, offset: nat)
    requires c.Ok()
    ensures var o := Opened(c, a, offset);
            o.Ok() && o.Listening() && o.Drive() && o.Rise(false).Stop() == Pointed(c, a, offset)
  {
  }

  /** What the three bytes that open a transaction do to the EEPROM.  Only the answer
      to the first one is looked at. */
  lemma OpeningBytes(c: Chip, a: nat, offset: nat)
    requires c.Ok() && c.phase.Deaf? && offset <= EEPROM_SIZE
    ensures var c1 := c.Start().Take(2 * a % 256);
            && c1.Ok() && c1.Listening()
            && (c.Start().Acks(2 * a % 256) <==> Answers(c, a)) && (Answers(c, a) <==> Taken(c, a, 3) > 0)
            && (!Answers(c, a) ==> c1.Rise(false).Stop() == AtRest(c, c.ptr, Later(c, a, 1)) && c1.Drive())
            && (Answers(c, a) ==>
                  var c2 := c1.Take(offset / 256 % 256);
                  && (c1.Acks(offset / 256 % 256) <==> Taken(c, a, 3) > 1) && c2.Ok() && c2.Listening()
                  && (c2.Acks(offset % 256) <==> Taken(c, a, 3) > 2) && c2.Take(offset % 256) == Opened(c, a, offset))
  {
    hide Half, Bits, Digits;
    DeviceByte(c, a);
    OneAnswer(c.answers);
    ThreeAnswers(c.answers);
    Pointer(offset);
  }

  lemma Pointer(offset: nat)
    requires offset <= EEPROM_SIZE
    ensures (256 * (offset / 256 % 256) + offset % 256) % EEPROM_SIZE == offset % EEPROM_SIZE
  {
  }

  /** The wire transcript of a read: set the address, then read `data`; every
      byte is acknowledged but the last one, which the reader refuses. */
  function ReadOctets(data: seq<Byte>, size: nat): (r: Transfer)
    ensures |r| == |data|
  {
    seq(|data|, i requires 0 <= i < |data| => Octet(data[i], i != size - 1))
  }

  /** The address bytes of a transaction, the first `k` of them acknowledged. */
  function AddressTransfer(a: nat, offset: nat, k: nat): Transfer {
    [Octet(2 * a % 256, 0 < k), Octet(offset / 256 % 256, 1 < k), Octet(offset % 256, 2 < k)]
  }

  function ReadTransfer(a: nat, heard: bool, data: seq<Byte>): Transfer {
    [Octet((2 * a + 1) % 256, heard)] + ReadOctets(data, |data|)
  }

  /** What a read that starts at the address counter gets: all ones if nobody answers. */
  function ReadAt(c: Chip, a: nat, i: nat): Byte
    requires |c.mem| == EEPROM_SIZE
  {
    if Answers(c, a) then c.mem[(c.ptr + i) % EEPROM_SIZE] else 255
  }

  /** The EEPROM after `n` of the `size` bytes of a read, `c` being the EEPROM
      before the second START. */
  ghost function Reading(c: Chip, a: nat, n: nat, size: nat): Chip
    requires c.Ok()
  {
    var s := c.Start().(answers := Later(c, a, 1));
    if !Answers(c, a) then s.(phase := Deaf)
    else if n < size || size == 0 then
      s.(phase := Tx(Bits(c.mem[(c.ptr + n) % EEPROM_SIZE])), ptr := (c.ptr + n + 1) % EEPROM_SIZE)
    else s.(phase := Deaf, ptr := (c.ptr + n) % EEPROM_SIZE)
  }

  lemma ReadBegins(c: Chip, a: nat, size: nat)
    requires c.Ok()
    ensures c.Start().Take((2 * a + 1) % 256) == Reading(c, a, 0, size)
    ensures c.Start().Listening() && (c.Start().Acks((2 * a + 1) % 256) <==> Answers(c, a))
    ensures Reading(c, a, 0, size).Talking()
  {
    DeviceByte(c, a);
  }

  lemma ReadStep(c: Chip, a: nat, n: nat, size: nat)
    requires c.Ok() && n < size
    ensures Reading(c, a, n, size).Ok() && Reading(c, a, n, size).Talking()
    ensures Reading(c, a, n, size).Offered() == Bits(ReadAt(c, a, n))
    ensures Reading(c, a, n, size).Next(n + 1 < size) == Reading(c, a, n + 1, size)
  {
    var p := (c.ptr + n + 1) % EEPROM_SIZE;
    assert (p + 1) % EEPROM_SIZE == (c.ptr + n + 2) % EEPROM_SIZE;
  }

  lemma SameByte(x: Byte, y: Byte)
    requires Bits(x) == Bits(y)
    ensures x == y
  {
    BitsValue(x);
    BitsValue(y);
  }

  lemma ReadOctetsSnoc(data: seq<Byte>, b: Byte, size: nat)
    ensures ReadOctets(data + [b], size) == ReadOctets(data, size) + [Octet(b, |data| != size - 1)]
  {
  }

  /** Where a read stands once it has got `got`. */
  ghost predicate ReadSoFar(c: Chip, t: seq<Event>, a: nat, size: nat, got: seq<Byte>, chip: Chip, trace: seq<Event>)
    requires c.Ok() && |got| <= size
  {
    && chip == Reading(c, a, |got|, size)
    && (forall i :: 0 <= i < |got| ==> got[i] == ReadAt(c, a, i))
    && trace == t + [Start, Fall]
                + BytesWire([Octet((2 * a + 1) % 256, Answers(c, a))] + ReadOctets(got, size), |got| + 1)
  }

  lemma FirstRead(c: Chip, t: seq<Event>, a: nat, size: nat, chip: Chip, trace: seq<Event>)
    requires c.Ok() && chip == c.Start().Take((2 * a + 1) % 256)
    requires trace == t + [Start, Fall] + ByteWire(Octet((2 * a + 1) % 256, Answers(c, a)))
    ensures ReadSoFar(c, t, a, size, [], chip, trace)
  {
    hide BitWire, BytesWire, Bits, Half, Reading;
    ReadBegins(c, a, size);
    var device := Octet((2 * a + 1) % 256, Answers(c, a));
    BytesWireOne(device);
    assert [device] + ReadOctets([], size) == [device];
  }

  lemma NextRead(c: Chip, t: seq<Event>, a: nat, size: nat, got: seq<Byte>, chip: Chip, trace: seq<Event>)
    requires c.Ok() && |got| < size && ReadSoFar(c, t, a, size, got, chip, trace)
    ensures chip.Ok() && chip.Talking()
  {
    hide BytesWire, Bits, Half, ReadOctets;
  }

  lemma OneMoreRead(c: Chip, t: seq<Event>, a: nat, size: nat, got: seq<Byte>, chip: Chip, trace: seq<Event>,
                    b: Byte, chip': Chip, trace': seq<Event>)
    requires c.Ok() && |got| < size && ReadSoFar(c, t, a, size, got, chip, trace)
    requires chip.Ok() && chip.Talking() && Bits(b) == chip.Offered() && chip' == chip.Next(|got| + 1 != size)
    requires trace' == trace + ByteWire(Octet(b, |got| + 1 != size))
    ensures ReadSoFar(c, t, a, size, got + [b], chip', trace')
  {
    hide BitWire, Bits, Half, Reading, ReadOctets, ByteWire, ReadAt;
    ReadStep(c, a, |got|, size);
    SameByte(b, ReadAt(c, a, |got|));
    var device, o := Octet((2 * a + 1) % 256, Answers(c, a)), Octet(b, |got| != size - 1);
    ReadOctetsSnoc(got, b, size);
    Assoc([device], ReadOctets(got, size), [o]);
    BytesWireSnoc([device] + ReadOctets(got, size), o);
  }

  lemma AllRead(c: Chip, t: seq<Event>, a: nat, got: seq<Byte>, chip: Chip, trace: seq<Event>)
    requires c.Ok() && ReadSoFar(c, t, a, |got|, got, chip, trace)
    ensures chip == Reading(c, a, |got|, |got|)
    ensures forall i :: 0 <= i < |got| ==> got[i] == ReadAt(c, a, i)
    ensures trace == t + [Start, Fall] + BytesWire(ReadTransfer(a, Answers(c, a), got), |got| + 1)
  {
  }

  /** What a read whose first device byte is acknowledged brings back. */
  function Fetched(c: Chip, a: nat, offset: nat, size: nat): (r: seq<Byte>)
    requires |c.mem| == EEPROM_SIZE
    ensures |r| == size && forall i :: 0 <= i < size ==> r[i] == ReadAt(Pointed(c, a, offset), a, i)
  {
    seq(size, i requires 0 <= i < size => ReadAt(Pointed(c, a, offset), a, i))
  }

  /** It is the memory from `offset` on if the address and the second device byte are
      acknowledged, the memory from the old address counter on if only the address is
      refused, and all ones if the device byte is. */
  lemma FetchedIsMemory(c: Chip, a: nat, offset: nat, size: nat)
    requires c.Ok() && offset + size <= EEPROM_SIZE
    ensures var d := Pointed(c, a, offset);
            var r := Fetched(c, a, offset, size);
            && (Taken(c, a, 3) == 3 && Answers(d, a) ==> r == c.mem[offset..offset + size])
            && (Taken(c, a, 3) < 3 && Answers(d, a) ==>
                  forall i :: 0 <= i < size ==> r[i] == c.mem[(c.ptr + i) % EEPROM_SIZE])
            && (!Answers(d, a) ==> forall i :: 0 <= i < size ==> r[i] == 255)
  {
    hide Taken, Answers, Later;
  }

  /** Exactly when a successful read returns what was asked for: everything was acknowledged,
      or the memory happens to hold there what came back instead. */
  lemma FetchedIsRightIff(c: Chip, a: nat, offset: nat, size: nat)
    requires c.Ok() && offset + size <= EEPROM_SIZE
    ensures var d, m := Pointed(c, a, offset), c.mem[offset..offset + size];
            Fetched(c, a, offset, size) == m <==>
            if !Answers(d, a) then forall i :: 0 <= i < size ==> m[i] == 255
            else Taken(c, a, 3) == 3 || forall i :: 0 <= i < size ==> m[i] == c.mem[(c.ptr + i) % EEPROM_SIZE]
  {
    hide Taken, Answers, Later, Pointed, Fetched, ReadAt, LetsGo;
    var m, r := c.mem[offset..offset + size], Fetched(c, a, offset, size);
    FetchedIsMemory(c, a, offset, size);
    SameBytes(r, m);
    TakenAtMost(c, a, 3);
  }

  lemma TakenAtMost(c: Chip, a: nat, n: nat)
    ensures Taken(c, a, n) <= n
  {
  }

  lemma SameBytes(x: seq<Byte>, y: seq<Byte>)
    requires |x| == |y|
    ensures x == y <==> forall i :: 0 <= i < |x| ==> y[i] == x[i]
  {
  }

  /** What one refusal costs: the first byte of the memory address is not acknowledged, and
      a read of one byte reports success and returns the byte at the old address counter. */
  lemma RefusedAddressByte(c: Chip, a: nat, offset: nat)
    requires c.Ok() && offset < EEPROM_SIZE && c.mem[c.ptr] != c.mem[offset]
    requires c.addr == a % 128 && c.answers == [true, false]
    ensures Answers(c, a) && Fetched(c, a, offset, 1) == [c.mem[c.ptr]] != c.mem[offset..offset + 1]
  {
    ThreeAnswers(c.answers);
    FetchedIsMemory(c, a, offset, 1);
    assert c.mem[offset..offset + 1][0] == c.mem[offset];
  }

  /** Does the EEPROM let go of SDA at the end of a read? */
  predicate LetsGo(c: Chip, a: nat, offset: nat, size: nat)
    requires c.Ok()
  {
    var d := Pointed(c, a, offset);
    size > 0 || !Answers(d, a) || d.mem[d.ptr] >= 128
  }

  /** The EEPROM and the wire after such a read: two transfers, the second of which
      lacks its STOP if the EEPROM still holds SDA low. */
  ghost predicate ReadEnded(c: Chip, a: nat, offset: nat, data: seq<Byte>, t: seq<Event>, c': Chip, t': seq<Event>)
    requires c.Ok()
  {
    var d, size := Pointed(c, a, offset), |data|;
    var address, read := AddressTransfer(a, offset, Taken(c, a, 3)), ReadTransfer(a, Answers(d, a), data);
    if LetsGo(c, a, offset, size) then
      && c' == AtRest(d, Reading(d, a, size, size).ptr, Later(d, a, 1))
      && t' == t + SessionWire([address, read])
    else
      && c' == Reading(d, a, size, size)
      && t' == t + TransferWire(address) + [Start, Fall] + BytesWire(read, size + 1) + [Rise(false)]
  }

  lemma PointedRests(c: Chip, a: nat, offset: nat)
    requires c.Ok()
    ensures Pointed(c, a, offset).Ok() && Pointed(c, a, offset).mem == c.mem == Pointed(c, a, offset).latch
    ensures Pointed(c, a, offset).ptr < EEPROM_SIZE && Pointed(c, a, offset).phase.Deaf?
  {
  }

  lemma BytesWireOne(x: Octet)
    ensures BytesWire([x], 1) == ByteWire(x)
  {
  }

  lemma BytesWireThree(x: Octet, y: Octet, z: Octet)
    ensures BytesWire([x, y, z], 3) == ByteWire(x) + ByteWire(y) + ByteWire(z)
  {
    assert BytesWire([x, y, z], 1) == ByteWire(x) by { assert BytesWire([x, y, z], 0) == []; }
    assert BytesWire([x, y, z], 2) == ByteWire(x) + ByteWire(y);
  }

  // ------------------------------------------------------------- writing

  /** `mem` with `data` written at `offset`. */
  function Splice(mem: seq<Byte>, offset: nat, data: seq<Byte>): (r: seq<Byte>)
    requires offset + |data| <= |mem|
    ensures |r| == |mem|
  {
    mem[..offset] + data + mem[offset + |data|..]
  }

  lemma SpliceStep(mem: seq<Byte>, offset: nat, data: seq<Byte>, i: nat)
    requires offset + |data| <= |mem| && i < |data|
    ensures Splice(mem, offset, data[..i])[offset + i := data[i]] == Splice(mem, offset, data[..i + 1])
  {
  }

  /** The answers left once a present device has been polled until it answered. */
  function Settled(answers: seq<bool>): seq<bool> {
    if Ready(answers) then Pop(answers) else Settled(answers[1..])
  }

  /** The bytes of a write that the driver sees through, out of `n`: it stops at the first
      device byte that is refused outside of a wait.  An element tells whether the
      EEPROM stores that byte, which takes four acknowledgements. */
  function Stores(present: bool, answers: seq<bool>, n: nat): (r: seq<bool>)
    ensures |r| <= n
    decreases n
  {
    if n == 0 || !present || !Ready(answers) then []
    else [Acknowledged(answers, 4) == 4] + Stores(present, Settled(Remaining(answers, 4)), n - 1)
  }

  /** `mem` with those bytes of `data` written at `offset` that are stored. */
  function Merge(mem: seq<Byte>, offset: nat, data: seq<Byte>, stores: seq<bool>): (r: seq<Byte>)
    requires |stores| <= |data| && offset + |data| <= |mem|
    ensures |r| == |mem|
    ensures forall j :: 0 <= j < |mem| ==>
              r[j] == if offset <= j < offset + |stores| && stores[j - offset] then data[j - offset] else mem[j]
  {
    seq(|mem|, j requires 0 <= j < |mem| =>
          if offset <= j < offset + |stores| && stores[j - offset] then data[j - offset] else mem[j])
  }

  function PollSession(device: nat, answers: seq<bool>): seq<Transfer> {
    if Ready(answers) then [[Octet(device, true)]]
    else [[Octet(device, false)]] + PollSession(device, answers[1..])
  }

  /** The four bytes that write one, the first `k` of them acknowledged. */
  function WriteTransfer(a: nat, offset: nat, b: Byte, k: nat): Transfer {
    AddressTransfer(a, offset, k) + [Octet(b, 3 < k)]
  }

  /** The wire transcript of a write: per byte one transfer and a poll. */
  function WriteSession(a: nat, offset: nat, data: seq<Byte>, present: bool, answers: seq<bool>): seq<Transfer>
    decreases |data|
  {
    if data == [] then []
    else if !present || !Ready(answers) then [[Octet(2 * a % 256, false)]]
    else [WriteTransfer(a, offset, data[0], Acknowledged(answers, 4))] + PollSession(2 * a % 256, Remaining(answers, 4))
         + WriteSession(a, offset + 1, data[1..], present, Settled(Remaining(answers, 4)))
  }

  /** The wire during one byte of a write. */
  ghost function ByteSessionWire(a: nat, offset: nat, b: Byte, answers: seq<bool>): seq<Event> {
    TransferWire(WriteTransfer(a, offset, b, Acknowledged(answers, 4)))
    + SessionWire(PollSession(2 * a % 256, Remaining(answers, 4)))
  }

  /** The EEPROM after the STOP of a transaction that writes one byte and whose device
      byte was acknowledged. */
  function Stored(c: Chip, a: nat, offset: nat, b: Byte): (r: Chip)
    requires c.Ok() && offset < EEPROM_SIZE
    ensures r.Ok() && r.addr == c.addr
  {
    var all := Taken(c, a, 4) == 4;
    AtRest(c.(mem := if all then c.mem[offset := b] else c.mem),
           if all then (offset + 1) % EEPROM_SIZE else PointerAfter(c, a, offset), Later(c, a, 4))
  }

  /** ... and after the wait, or after the refusal of the device byte. */
  function Turned(c: Chip, a: nat, offset: nat, b: Byte): (r: Chip)
    requires c.Ok() && offset < EEPROM_SIZE
    ensures r.Ok() && r.addr == c.addr
  {
    if Answers(c, a) then var r := Stored(c, a, offset, b); r.(answers := Settled(r.answers))
    else AtRest(c, c.ptr, Later(c, a, 1))
  }

  /** The EEPROM after a whole write. */
  function WriteRun(c: Chip, a: nat, offset: nat, data: seq<Byte>): (r: Chip)
    requires c.Ok() && offset + |data| <= EEPROM_SIZE
    ensures r.Ok() && r.addr == c.addr
    decreases |data|
  {
    if data == [] then c
    else if !Answers(c, a) then Turned(c, a, offset, data[0])
    else WriteRun(Turned(c, a, offset, data[0]), a, offset + 1, data[1..])
  }

  /** What a write works on: the EEPROM, the wire and the RAM shadow. */
  datatype Snapshot = Snapshot(chip: Chip, trace: seq<Event>, shadow: seq<Byte>)
  {
    ghost predicate Ok() { chip.Ok() && |shadow| == EEPROM_SIZE }
  }

  /** The effect of writing one byte on the EEPROM and on the wire. */
  ghost predicate WroteByte(a: nat, offset: nat, b: Byte, c: Chip, t: seq<Event>, c': Chip, t': seq<Event>)
    requires c.Ok() && offset < EEPROM_SIZE
  {
    && c' == Turned(c, a, offset, b)
    && t' == t + if Answers(c, a) then ByteSessionWire(a, offset, b, c.answers)
                 else TransferWire([Octet(2 * a % 256, false)])
  }

  /** ... and on the shadow as well, with or without a real EEPROM. */
  ghost predicate WroteOne(fake: bool, a: nat, offset: nat, b: Byte, s: Snapshot, nak: int, s': Snapshot)
    requires s.Ok() && offset < EEPROM_SIZE
  {
    && s'.shadow == (if nak < 0 then s.shadow else s.shadow[offset := b])
    && (fake ==> nak >= 0 && s'.chip == s.chip && s'.trace == s.trace)
    && (!fake ==> (nak < 0 <==> !Answers(s.chip, a)) && WroteByte(a, offset, b, s.chip, s.trace, s'.chip, s'.trace))
  }

  /** Which bytes of a write of `n` get through to a real EEPROM. */
  function Verdicts(c: Chip, a: nat, n: nat): (r: seq<bool>)
    ensures |r| <= n
  {
    Stores(c.addr == a % 128, c.answers, n)
  }

  /** The whole effect of a write. */
  ghost predicate Wrote(fake: bool, a: nat, offset: nat, data: seq<Byte>, s: Snapshot, ret: int, s': Snapshot)
    requires s.Ok() && offset + |data| <= EEPROM_SIZE
  {
    var k := if fake then |data| else |Verdicts(s.chip, a, |data|)|;
    && ret == (if k == |data| then |data| else -1)
    // the shadow takes every byte that the driver saw through, the chip those that it acknowledged
    && s'.shadow == Splice(s.shadow, offset, data[..k])
    && s'.chip == (if fake then s.chip else WriteRun(s.chip, a, offset, data))
    && s'.trace == if fake then s.trace
                   else s.trace + SessionWire(WriteSession(a, offset, data, s.chip.addr == a % 128, s.chip.answers))
  }

  lemma WriteTransferWire(a: nat, offset: nat, b: Byte, k: nat)
    ensures TransferWire(WriteTransfer(a, offset, b, k))
         == [Start, Fall] + (BytesWire(AddressTransfer(a, offset, k), 3) + ByteWire(Octet(b, 3 < k)))
            + [Rise(false), Stop]
  {
    hide BitWire;
    BytesWireSnoc(AddressTransfer(a, offset, k), Octet(b, 3 < k));
  }

  lemma WriteSessionStep(a: nat, offset: nat, data: seq<Byte>, present: bool, answers: seq<bool>)
    requires data != []
    ensures var w := SessionWire(WriteSession(a, offset, data, present, answers));
            if present && Ready(answers) then
              w == ByteSessionWire(a, offset, data[0], answers)
                   + SessionWire(WriteSession(a, offset + 1, data[1..], present, Settled(Remaining(answers, 4))))
            else w == TransferWire([Octet(2 * a % 256, false)])
  {
    hide BitWire, BytesWire, TransferWire, Acknowledged, Remaining;
    if present && Ready(answers) {
      var head, left := [WriteTransfer(a, offset, data[0], Acknowledged(answers, 4))], Remaining(answers, 4);
      var poll := PollSession(2 * a % 256, left);
      SessionWireConcat(head + poll, WriteSession(a, offset + 1, data[1..], present, Settled(left)));
      SessionWireConcat(head, poll);
      SessionWireOne(head[0]);
    } else {
      SessionWireOne([Octet(2 * a % 256, false)]);
    }
  }

  /** The fourth byte of a write, and the STOP that commits it if it was accepted. */
  lemma DataByte(c: Chip, a: nat, offset: nat, b: Byte)
    requires c.Ok() && Answers(c, a) && offset < EEPROM_SIZE
    ensures var o := Opened(c, a, offset);
            && o.Listening() && (o.Acks(b) <==> Taken(c, a, 4) > 3)
            && o.Take(b).Ok() && o.Take(b).Drive()
            && o.Take(b).Rise(false).Stop() == Stored(c, a, offset, b)
  {
    hide Acknowledged, Remaining, Chip.Rise, Chip.Stop;
    FourAnswers(c.answers);
    if Taken(c, a, 3) == 3 {
      ByteCommits(Opened(c, a, offset), b);
    } else {
      OpenedStops(c, a, offset);
    }
  }

  /** A byte for which the EEPROM has an address. */
  lemma ByteCommits(o: Chip, b: Byte)
    requires o.Ok() && o.phase == Rx(Data, []) && o.latch == o.mem
    ensures o.Acks(b) <==> Ready(o.answers)
    ensures o.Take(b).Ok() && o.Take(b).Drive()
    ensures o.Take(b).Rise(false).Stop()
         == if Ready(o.answers) then AtRest(o.(mem := o.mem[o.ptr := b]), (o.ptr + 1) % EEPROM_SIZE, Pop(o.answers))
            else AtRest(o, o.ptr, Pop(o.answers))
  {
  }

  lemma StoredRests(c: Chip, a: nat, offset: nat, b: Byte)
    requires c.Ok() && offset < EEPROM_SIZE
    ensures Stored(c, a, offset, b).phase.Deaf? && Stored(c, a, offset, b).latch == Stored(c, a, offset, b).mem
  {
  }

  lemma SameStart(c: Chip, a: nat, offset: nat)
    ensures AddressTransfer(a, offset, Taken(c, a, 3)) == AddressTransfer(a, offset, Taken(c, a, 4))
  {
    FourAnswers(c.answers);
  }

  /** A device byte followed by a STOP changes nothing but the answers left. */
  lemma PollByte(c: Chip, a: nat)
    requires c.Ok() && c.phase.Deaf?
    ensures var d := c.Start().Take(2 * a % 256);
            && c.Start().Listening()
            && (c.Start().Acks(2 * a % 256) <==> Answers(c, a))
            && d.Ok() && d.Drive() && d.Rise(false).Stop() == AtRest(c, c.ptr, Later(c, a, 1))
  {
    DeviceByte(c, a);
  }

  class Fmc {
    const bus: Bus
    const eepromAddr: nat
    var fake: bool              // SPEC_FLAG_FAKE_EEPROM
    var noMezzanine: bool       // FMC_DEVICE_NO_MEZZANINE
    var eeprom: array?<Byte>    // the RAM shadow of the chip
    var eepromLen: nat

    constructor (bus: Bus, eepromAddr: nat)
      ensures this.bus == bus && this.eepromAddr == eepromAddr
      ensures !fake && !noMezzanine && eeprom == null && eepromLen == 0
    {
      this.bus, this.eepromAddr := bus, eepromAddr;
      fake, noMezzanine, eeprom, eepromLen := false, false, null, 0;
    }

    /** The opening shared by reads and writes: START, the device byte and, unless
        that one is refused, the two bytes of the memory address, whose answers
        nobody looks at. */
    method SendAddress(offset: nat) returns (nak: int)
      requires bus.Idle() && offset <= EEPROM_SIZE
      modifies bus
      ensures bus.chip.Ok()
      ensures nak < 0 <==> !Answers(old(bus.chip), eepromAddr)
      ensures nak < 0 ==>
                && bus.Idle()
                && bus.chip == AtRest(old(bus.chip), old(bus.chip).ptr, Later(old(bus.chip), eepromAddr, 1))
                && bus.trace == old(bus.trace) + TransferWire([Octet(2 * eepromAddr % 256, false)])
      ensures nak >= 0 ==>
                && !bus.scl
                && bus.chip == Opened(old(bus.chip), eepromAddr, offset)
                && bus.trace == old(bus.trace) + [Start, Fall]
                                + BytesWire(AddressTransfer(eepromAddr, offset, Taken(old(bus.chip), eepromAddr, 3)), 3)
    {
      hide BitWire, Half, Bits, ByteWire, BytesWire, Chip.Take, Chip.Acks, Chip.Rise, Chip.Stop, Answers, Later, Taken,
           Opened;
      var device, high, low := 2 * eepromAddr % 256, offset / 256 % 256, offset % 256;
      ghost var k := Taken(bus.chip, eepromAddr, 3);
      assert device % 256 == device && high % 256 == high && low % 256 == low;
      OpeningBytes(bus.chip, eepromAddr, offset);
      BytesWireOne(Octet(device, false));
      BytesWireThree(Octet(device, 0 < k), Octet(high, 1 < k), Octet(low, 2 < k));
      Mi2cStart(bus);
      nak := Mi2cPutByte(bus, 2 * eepromAddr);
      if nak < 0 {
        Mi2cStop(bus);
        return;
      }
      var _ := Mi2cPutByte(bus, high);
      var _ := Mi2cPutByte(bus, low);
    }

    /** The second half of a read: START, the device byte with the read bit, and
        as many bytes as the buffer holds. */
    method ReadBytes(buf: array<Byte>)
      requires bus.Idle()
      modifies bus, buf
      ensures !bus.scl && bus.chip.Ok()
      ensures bus.chip == Reading(old(bus.chip), eepromAddr, buf.Length, buf.Length)
      ensures forall i :: 0 <= i < buf.Length ==> buf[i] == ReadAt(old(bus.chip), eepromAddr, i)
      ensures bus.trace == old(bus.trace) + [Start, Fall]
                           + BytesWire(ReadTransfer(eepromAddr, Answers(old(bus.chip), eepromAddr), buf[..]),
                                       buf.Length + 1)
    {
      hide ReadSoFar, Reading, ByteWire, Bits, Chip.Take, Chip.Acks, Chip.Next, Chip.Offered, Chip.Talking,
           ReadTransfer, BytesWire, ReadAt;
      ghost var c, t, a := bus.chip, bus.trace, eepromAddr;
      var size := buf.Length;
      ReadBegins(c, a, size);
      Mi2cStart(bus);
      var _ := Mi2cPutByte(bus, 2 * eepromAddr + 1);
      FirstRead(c, t, a, size, bus.chip, bus.trace);
      var n := 0;
      while size > 0
        invariant 0 <= n && 0 <= size && n + size == buf.Length
        invariant !bus.scl && bus.chip.Ok()
        invariant ReadSoFar(c, t, a, buf.Length, buf[..n], bus.chip, bus.trace)
      {
        size := size - 1;
        ghost var got, chip, trace := buf[..n], bus.chip, bus.trace;
        NextRead(c, t, a, buf.Length, got, chip, trace);
        var b := Mi2cGetByte(bus, size != 0);
        buf[n] := b;
        assert buf[..n + 1] == got + [b];
        OneMoreRead(c, t, a, buf.Length, got, chip, trace, b, bus.chip, bus.trace);
        n := n + 1;
      }
      assert buf[..n] == buf[..];
      AllRead(c, t, a, buf[..], bus.chip, bus.trace);
    }

    method EepromRead(offset: nat, buf: array<Byte>) returns (ret: int)
      requires bus.Idle()
      modifies bus, buf
      ensures bus.chip.Ok() && bus.chip.mem == old(bus.chip.mem)
      // nothing happens for a fake EEPROM or a bad range
      ensures fake || offset + buf.Length > EEPROM_SIZE ==>
                unchanged(bus) && unchanged(buf) && ret == if fake then buf.Length else -EINVAL
      // the first device byte is refused
      ensures !fake && offset + buf.Length <= EEPROM_SIZE && !Answers(old(bus.chip), eepromAddr) ==>
                && ret == -EIO && unchanged(buf) && bus.Idle()
                && bus.chip == AtRest(old(bus.chip), old(bus.chip).ptr, Later(old(bus.chip), eepromAddr, 1))
                && bus.trace == old(bus.trace) + SessionWire([[Octet(2 * eepromAddr % 256, false)]])
      // otherwise the call succeeds, whatever is refused from then on
      ensures !fake && offset + buf.Length <= EEPROM_SIZE && Answers(old(bus.chip), eepromAddr) ==>
                && ret == buf.Length
                && buf[..] == Fetched(old(bus.chip), eepromAddr, offset, buf.Length)
                && ReadEnded(old(bus.chip), eepromAddr, offset, buf[..], old(bus.trace), bus.chip, bus.trace)
                && (bus.Idle() <==> LetsGo(old(bus.chip), eepromAddr, offset, buf.Length))
    {
      hide BitWire, BytesWire, Reading, Half, Bits, ByteWire, Chip.Rise, Chip.Stop, ReadOctets, TransfersWire, ReadAt,
           Opened, Pointed, Answers, Later, Taken;
      var size := buf.Length;
      ret := size;
      if fake {
        return;
      }
      if offset > EEPROM_SIZE {
        return -EINVAL;
      }
      if offset + size > EEPROM_SIZE {
        return -EINVAL;
      }
      ghost var c := bus.chip;
      PointedRests(c, eepromAddr, offset);
      var nak := SendAddress(offset);
      if nak < 0 {
        SessionWireOne([Octet(2 * eepromAddr % 256, false)]);
        return -EIO;
      }
      OpenedStops(c, eepromAddr, offset);
      Mi2cStop(bus);
      ghost var c1 := bus.chip;
      ReadBytes(buf);
      ReadEnds(c1, eepromAddr, size);
      SessionWireTwo(AddressTransfer(eepromAddr, offset, Taken(c, eepromAddr, 3)),
                     ReadTransfer(eepromAddr, Answers(c1, eepromAddr), buf[..]));
      Mi2cStop(bus);
    }

    /** One START, device byte, STOP. */
    method Poll() returns (nak: int)
      requires bus.Idle()
      modifies bus
      ensures bus.Idle() && bus.chip == AtRest(old(bus.chip), old(bus.chip).ptr, Later(old(bus.chip), eepromAddr, 1))
      ensures nak == if Answers(old(bus.chip), eepromAddr) then 0 else -EIO
      ensures bus.trace == old(bus.trace) + TransferWire([Octet(2 * eepromAddr % 256, nak == 0)])
    {
      hide BitWire, Bits, Half;
      var device := 2 * eepromAddr % 256;
      assert device % 256 == device;
      PollByte(bus.chip, eepromAddr);
      Mi2cStart(bus);
      nak := Mi2cPutByte(bus, 2 * eepromAddr);
      BytesWireOne(Octet(device, nak == 0));
      Mi2cStop(bus);
    }

    /** Wait until the chip becomes ready.  It does, because only finitely many of
        its answers are refusals. */
    method WaitReady()
      requires bus.Idle() && bus.chip.addr == eepromAddr % 128
      modifies bus
      ensures bus.Idle() && bus.chip == old(bus.chip).(answers := Settled(old(bus.chip).answers))
      ensures bus.trace == old(bus.trace) + SessionWire(PollSession(2 * eepromAddr % 256, old(bus.chip).answers))
    {
      hide BitWire, BytesWire, Bits, Half, ByteWire, TransferWire;
      ghost var c, t, device := bus.chip, bus.trace, 2 * eepromAddr % 256;
      var busy := 1;
      while busy != 0
        invariant bus.Idle()
        invariant busy != 0 ==> Settled(bus.chip.answers) == Settled(c.answers)
        invariant bus.chip == c.(answers := if busy == 0 then Settled(c.answers) else bus.chip.answers)
        invariant busy == 0 ==> bus.trace == t + SessionWire(PollSession(device, c.answers))
        invariant busy != 0 ==>
                    bus.trace + SessionWire(PollSession(device, bus.chip.answers))
                    == t + SessionWire(PollSession(device, c.answers))
        decreases busy != 0, |bus.chip.answers|
      {
        ghost var t1, answers := bus.trace, bus.chip.answers;
        busy := Poll();
        PollStep(device, answers);
        OneAnswer(answers);
        Assoc(t1, TransferWire([Octet(device, busy == 0)]), SessionWire(PollSession(device, Pop(answers))));
      }
    }

    /** One write transaction: four bytes, of which only the first one's answer is
        looked at, and a STOP. */
    method SendByte(offset: nat, b: Byte) returns (nak: int)
      requires bus.Idle() && offset < EEPROM_SIZE
      modifies bus
      ensures bus.Idle()
      ensures nak < 0 <==> !Answers(old(bus.chip), eepromAddr)
      ensures nak < 0 ==>
                && bus.chip == AtRest(old(bus.chip), old(bus.chip).ptr, Later(old(bus.chip), eepromAddr, 1))
                && bus.trace == old(bus.trace) + TransferWire([Octet(2 * eepromAddr % 256, false)])
      ensures nak >= 0 ==>
                && bus.chip == Stored(old(bus.chip), eepromAddr, offset, b)
                && bus.trace
                   == old(bus.trace)
                      + TransferWire(WriteTransfer(eepromAddr, offset, b, Taken(old(bus.chip), eepromAddr, 4)))
    {
      hide BitWire, Half, Bits, ByteWire, BytesWire, Chip.Rise, Chip.Stop, Chip.Take, Chip.Acks, Opened,
           AddressTransfer, Taken, Later, Answers;
      ghost var c := bus.chip;
      nak := SendAddress(offset);
      if nak < 0 {
        return;
      }
      assert b % 256 == b;
      DataByte(c, eepromAddr, offset, b);
      SameStart(c, eepromAddr, offset);
      var _ := Mi2cPutByte(bus, b);
      WriteTransferWire(eepromAddr, offset, b, Taken(c, eepromAddr, 4));
      StoredRests(c, eepromAddr, offset, b);
      Mi2cStop(bus);
    }

    /** The part of the write loop that talks to the chip, for one byte. */
    method WriteByte(offset: nat, b: Byte) returns (nak: int)
      requires bus.Idle() && offset < EEPROM_SIZE
      modifies bus
      ensures bus.Idle()
      ensures nak < 0 <==> !Answers(old(bus.chip), eepromAddr)
      ensures WroteByte(eepromAddr, offset, b, old(bus.chip), old(bus.trace), bus.chip, bus.trace)
    {
      hide BitWire, BytesWire, WriteTransfer, PollSession, Acknowledged, Remaining, Settled, TransferWire, Ready;
      nak := SendByte(offset, b);
      if nak < 0 {
        return;
      }
      WaitReady();
    }

    /** One turn of the write loop. */
    method WriteOne(offset: nat, b: Byte) returns (nak: int)
      requires bus.Idle() && offset < EEPROM_SIZE
      requires eeprom != null && eeprom.Length == EEPROM_SIZE
      modifies bus, eeprom
      ensures bus.Idle()
      ensures fake ==> unchanged(bus)
      ensures WroteOne(fake, eepromAddr, offset, b, old(Snapshot(bus.chip, bus.trace, eeprom[..])), nak,
                       Snapshot(bus.chip, bus.trace, eeprom[..]))
    {
      hide BitWire, ByteSessionWire, TransferWire, Settled;
      nak := 0;
      if fake {
        eeprom[offset] := b;
        return;
      }
      nak := WriteByte(offset, b);
      if nak < 0 {
        return;
      }
      eeprom[offset] := b;
    }

    method EepromWrite(offset: nat, data: seq<Byte>) returns (ret: int)
      requires bus.Idle()
      requires eeprom != null && eeprom.Length == EEPROM_SIZE
      modifies bus, eeprom
      ensures bus.Idle()
      ensures offset + |data| > EEPROM_SIZE ==> ret == -EINVAL && unchanged(bus) && unchanged(eeprom)
      ensures offset + |data| <= EEPROM_SIZE ==>
                Wrote(fake, eepromAddr, offset, data, old(Snapshot(bus.chip, bus.trace, eeprom[..])), ret,
                      Snapshot(bus.chip, bus.trace, eeprom[..]))
      // the answer is the length, or -1 if a device byte was refused outside of a wait
      ensures offset + |data| <= EEPROM_SIZE ==>
                var all := fake || |Verdicts(old(bus.chip), eepromAddr, |data|)| == |data|;
                && ret == (if all then |data| else -1)
                && (all ==> eeprom[..] == old(eeprom[..offset]) + data + old(eeprom[offset + |data|..]))
    {
      if offset > EEPROM_SIZE {
        return -EINVAL;
      }
      if offset + |data| > EEPROM_SIZE {
        return -EINVAL;
      }
      ret := WriteAll(offset, data);
    }

    /** The write loop. */
    method WriteAll(offset: nat, data: seq<Byte>) returns (ret: int)
      requires bus.Idle() && offset + |data| <= EEPROM_SIZE
      requires eeprom != null && eeprom.Length == EEPROM_SIZE
      modifies bus, eeprom
      ensures bus.Idle()
      ensures Wrote(fake, eepromAddr, offset, data, old(Snapshot(bus.chip, bus.trace, eeprom[..])), ret,
                    Snapshot(bus.chip, bus.trace, eeprom[..]))
    {
      hide Underway, WroteOne, Wrote;
      ghost var was := Snapshot(bus.chip, bus.trace, eeprom[..]);
      WriteBegins(fake, was, eepromAddr, offset, data);
      var i := 0;
      while i < |data|
        invariant 0 <= i <= |data|
        invariant bus.Idle()
        invariant Underway(fake, was, eepromAddr, offset, data, i, Snapshot(bus.chip, bus.trace, eeprom[..]))
      {
        ghost var before := Snapshot(bus.chip, bus.trace, eeprom[..]);
        var nak := WriteOne(offset + i, data[i]);
        WriteStep(fake, was, eepromAddr, offset, data, i, before, nak, Snapshot(bus.chip, bus.trace, eeprom[..]));
        if nak < 0 {
          return -1;
        }
        i := i + 1;
      }
      WriteEnds(fake, was, eepromAddr, offset, data, Snapshot(bus.chip, bus.trace, eeprom[..]));
      return |data|;
    }

    method Mi2cScan() returns (found: nat)
      requires bus.Idle()
      modifies bus
      ensures bus.Idle() && bus.chip == AtRest(old(bus.chip), old(bus.chip).ptr, Later(old(bus.chip), eepromAddr, 1))
      ensures found == if Answers(old(bus.chip), eepromAddr) then 1 else 0
      ensures bus.trace == old(bus.trace) + TransferWire([]) + TransferWire([Octet(2 * eepromAddr % 256, found == 1)])
    {
      hide BitWire, ByteWire, Half, Bits;
      found := 0;
      // an empty transfer, which ends whatever was going on
      Mi2cStart(bus);
      Mi2cStop(bus);
      // of the 128 addresses only one is tried
      var nak := Poll();
      if nak == 0 {
        found := found + 1;
      }
    }

    /** `memOk` is the outcome of kzalloc, `image` the file of a fake EEPROM if
        one was asked for and could be loaded. */
    method I2cInit(memOk: bool, image: Option<seq<Byte>>) returns (ret: int)
      requires bus.Idle() && !fake
      modifies this, bus
      ensures bus.Idle() && bus.chip.mem == old(bus.chip.mem)
      ensures var c := old(bus.chip);
              var d := AtRest(c, c.ptr, Later(c, eepromAddr, 1));  // after the scan
              if !Answers(c, eepromAddr) then
                ret == 0 && noMezzanine && unchanged(this`fake, this`eeprom, this`eepromLen)
              else if !memOk then ret == -ENOMEM && unchanged(this)
              else if image.None? && !Answers(d, eepromAddr) then
                ret == -EIO && eeprom == null && eepromLen == 0
              else
                && ret == 0 && eeprom != null && fresh(eeprom) && eeprom.Length == eepromLen == EEPROM_SIZE
                && fake == image.Some?
                && (image.None? ==> eeprom[..] == Fetched(d, eepromAddr, 0, EEPROM_SIZE))
                && (image.Some? ==>
                      forall i :: 0 <= i < EEPROM_SIZE ==> eeprom[i] == if i < |image.value| then image.value[i] else 0)
    {
      hide Half, Bits, SessionWire, TransferWire, ReadTransfer, AddressTransfer, Answers, Later, Fetched, ReadEnded,
           Pointed;
      var found := Mi2cScan();
      if found == 0 {
        noMezzanine := true;
        return 0;
      }
      if !memOk {
        return -ENOMEM;
      }
      var buf := new Byte[EEPROM_SIZE](_ => 0);
      if image.Some? {
        fake := true;
        forall i | 0 <= i < EEPROM_SIZE && i < |image.value| {
          buf[i] := image.value[i];
        }
      }
      var n := EepromRead(0, buf);
      if n != EEPROM_SIZE {
        eeprom := null;
        eepromLen := 0;
        return -EIO;
      }
      eeprom := buf;
      eepromLen := EEPROM_SIZE;
      return 0;
    }
  }

  /** Where a write stands after `i` bytes: what it has done, and what it still
      has to do, add up to the whole. */
  ghost predicate Underway(fake: bool, was: Snapshot, a: nat, offset: nat, data: seq<Byte>, i: nat, now: Snapshot)
    requires was.Ok() && offset + |data| <= EEPROM_SIZE && i <= |data|
  {
    var present := was.chip.addr == a % 128;
    && now.shadow == Splice(was.shadow, offset, data[..i])
    && if fake then now.chip == was.chip && now.trace == was.trace else
         && now.chip.Ok() && now.chip.addr == was.chip.addr
         && WriteRun(was.chip, a, offset, data) == WriteRun(now.chip, a, offset + i, data[i..])
         && |Verdicts(was.chip, a, |data|)| == i + |Verdicts(now.chip, a, |data| - i)|
         && now.trace + SessionWire(WriteSession(a, offset + i, data[i..], present, now.chip.answers))
            == was.trace + SessionWire(WriteSession(a, offset, data, present, was.chip.answers))
  }

  lemma WriteBegins(fake: bool, was: Snapshot, a: nat, offset: nat, data: seq<Byte>)
    requires was.Ok() && offset + |data| <= EEPROM_SIZE
    ensures Underway(fake, was, a, offset, data, 0, was)
  {
    assert data[0..] == data;
  }

  lemma WriteStep(fake: bool, was: Snapshot, a: nat, offset: nat, data: seq<Byte>, i: nat,
                  s: Snapshot, nak: int, s': Snapshot)
    requires was.Ok() && s.Ok() && offset + |data| <= EEPROM_SIZE && i < |data|
    requires Underway(fake, was, a, offset, data, i, s)
    requires WroteOne(fake, a, offset + i, data[i], s, nak, s')
    ensures nak >= 0 ==> Underway(fake, was, a, offset, data, i + 1, s')
    ensures nak < 0 ==> Wrote(fake, a, offset, data, was, -1, s')
  {
    hide BitWire, BytesWire, TransfersWire, ByteSessionWire, WriteSession, TransferWire, Splice, Settled, Acknowledged,
         Remaining;
    SpliceStep(was.shadow, offset, data, i);
    var present, rest := was.chip.addr == a % 128, data[i..];
    assert rest[1..] == data[i + 1..];
    WriteSessionStep(a, offset + i, rest, present, s.chip.answers);
    Assoc(s.trace, ByteSessionWire(a, offset + i, data[i], s.chip.answers),
          SessionWire(WriteSession(a, offset + i + 1, data[i + 1..], present, s'.chip.answers)));
  }

  lemma WriteEnds(fake: bool, was: Snapshot, a: nat, offset: nat, data: seq<Byte>, s: Snapshot)
    requires was.Ok() && offset + |data| <= EEPROM_SIZE
    requires Underway(fake, was, a, offset, data, |data|, s)
    ensures Wrote(fake, a, offset, data, was, |data|, s)
  {
    hide BitWire, BytesWire;
    assert data[|data|..] == [] && data[..|data|] == data;
  }

  lemma PollStep(device: nat, answers: seq<bool>)
    ensures Ready(answers) ==> SessionWire(PollSession(device, answers)) == TransferWire([Octet(device, true)])
    ensures !Ready(answers) ==>
              SessionWire(PollSession(device, answers))
              == TransferWire([Octet(device, false)]) + SessionWire(PollSession(device, Pop(answers)))
  {
    hide BitWire, BytesWire, TransferWire;
    SessionWireOne([Octet(device, Ready(answers))]);
    if !Ready(answers) {
      SessionWireConcat([[Octet(device, false)]], PollSession(device, answers[1..]));
    }
  }

  /** After the last byte the EEPROM lets go of SDA, unless nothing was read and
      it is already driving the first bit of an answer nobody asked for. */
  lemma ReadEnds(c: Chip, a: nat, size: nat)
    requires c.Ok() && c.latch == c.mem
    ensures var r := Reading(c, a, size, size);
            && (r.Drive() <==> size > 0 || !Answers(c, a) || c.mem[c.ptr] >= 128)
            && (r.Drive() ==> r.Rise(false).Stop() == AtRest(c, r.ptr, Later(c, a, 1)))
            && (!r.Drive() ==> r.Rise(false) == r && !r.phase.Deaf? && r.mem == c.mem)
  {
    hide Half;
    EightHalves(c.mem[c.ptr]);
  }

  // ------------------------------------------------------- what follows

  /** The memory after a write: every byte that was acknowledged to the end, and no other. */
  lemma {:induction false} WriteRunStores(c: Chip, a: nat, offset: nat, data: seq<Byte>)
    requires c.Ok() && offset + |data| <= EEPROM_SIZE
    ensures WriteRun(c, a, offset, data).mem == Merge(c.mem, offset, data, Verdicts(c, a, |data|))
    decreases |data|
  {
    hide Settled, Merge, Acknowledged, Remaining, Ready, Turned;
    if data != [] {
      TurnedMemory(c, a, offset, data[0]);
    }
    if data != [] && Answers(c, a) {
      var d := Turned(c, a, offset, data[0]);
      WriteRunStores(d, a, offset + 1, data[1..]);
      assert Verdicts(c, a, |data|) == [Taken(c, a, 4) == 4] + Verdicts(d, a, |data| - 1);
      MergeFront(c.mem, offset, data, Taken(c, a, 4) == 4, Verdicts(d, a, |data| - 1));
    } else {
      assert Verdicts(c, a, |data|) == [];
      NothingStored(c.mem, offset, data);
    }
  }

  lemma TurnedMemory(c: Chip, a: nat, offset: nat, b: Byte)
    requires c.Ok() && offset < EEPROM_SIZE
    ensures var d := Turned(c, a, offset, b);
            if Answers(c, a) then
              && d.mem == (if Taken(c, a, 4) == 4 then c.mem[offset := b] else c.mem)
              && d.answers == Settled(Remaining(c.answers, 4))
            else d.mem == c.mem
  {
    hide Settled, Acknowledged, Remaining, Ready;
  }

  /** Shadow coherence, exactly.  A write on a real EEPROM, whether it goes to the end or
      stops half way, leaves the shadow equal to the chip, if it was before, if and only
      if in every transaction the driver saw through all four bytes were acknowledged,
      or the byte was there already: the driver looks at the first answer only.
      Without a real EEPROM only the shadow moves. */
  lemma WriteKeepsCoherence(fake: bool, a: nat, offset: nat, data: seq<Byte>, s: Snapshot, ret: int, s': Snapshot)
    requires s.Ok() && offset + |data| <= EEPROM_SIZE
    requires Wrote(fake, a, offset, data, s, ret, s') && s.shadow == s.chip.mem
    ensures var stores := Verdicts(s.chip, a, |data|);
            s'.shadow == s'.chip.mem <==>
            if fake then s.shadow[offset..offset + |data|] == data
            else forall i :: 0 <= i < |stores| ==> stores[i] || s.shadow[offset + i] == data[i]
  {
    hide Verdicts;
    if fake {
      SpliceSame(s.shadow, offset, data);
    } else {
      WriteRunStores(s.chip, a, offset, data);
      SpliceMerge(s.shadow, offset, data, Verdicts(s.chip, a, |data|));
    }
  }

  lemma SpliceMerge(mem: seq<Byte>, offset: nat, data: seq<Byte>, stores: seq<bool>)
    requires |stores| <= |data| && offset + |data| <= |mem|
    ensures Splice(mem, offset, data[..|stores|]) == Merge(mem, offset, data, stores) <==>
            forall i :: 0 <= i < |stores| ==> stores[i] || mem[offset + i] == data[i]
  {
    var x, y := Splice(mem, offset, data[..|stores|]), Merge(mem, offset, data, stores);
    forall i | 0 <= i < |stores|
      ensures x[offset + i] == data[i] && y[offset + i] == if stores[i] then data[i] else mem[offset + i]
    {
    }
    assert forall j :: 0 <= j < |mem| && !(offset <= j < offset + |stores|) ==> x[j] == mem[j] == y[j];
  }

  lemma SpliceSame(mem: seq<Byte>, offset: nat, data: seq<Byte>)
    requires offset + |data| <= |mem|
    ensures Splice(mem, offset, data) == mem <==> mem[offset..offset + |data|] == data
    ensures Splice(mem, offset, data)[offset..offset + |data|] == data
  {
    var r := Splice(mem, offset, data);
    assert r[offset..offset + |data|] == data;
    assert mem == mem[..offset] + mem[offset..offset + |data|] + mem[offset + |data|..];
  }

  /** What one refusal costs: a write of one byte whose data byte is not acknowledged
      reports success and leaves the shadow with a byte the chip does not have. */
  lemma RefusedDataByte(a: nat, offset: nat, b: Byte, s: Snapshot, s': Snapshot)
    requires s.Ok() && offset < EEPROM_SIZE && s.shadow == s.chip.mem && s.chip.mem[offset] != b
    requires s.chip.addr == a % 128 && s.chip.answers == [true, true, true, false]
    requires Wrote(false, a, offset, [b], s, 1, s')
    ensures s'.shadow[offset] == b != s'.chip.mem[offset]
  {
    hide Splice, WriteSession;
    ThreeAnswers(s.chip.answers);
    FourAnswers(s.chip.answers);
    assert Verdicts(s.chip, a, 1) == [false] by {
      assert Stores(true, Settled(Remaining(s.chip.answers, 4)), 0) == [];
    }
    WriteKeepsCoherence(false, a, offset, [b], s, 1, s');
    WriteRunStores(s.chip, a, offset, [b]);
    assert s'.shadow == Splice(s.shadow, offset, [b][..1]) && [b][..1] == [b];
    SpliceSame(s.shadow, offset, [b]);
    assert s'.shadow[offset] == s'.shadow[offset..offset + 1][0];
  }

  /** A successful write followed by a read of the same range: what comes back is what was
      written, if every byte of the write and of the read's address was acknowledged. */
  method WriteThenRead(fmc: Fmc, offset: nat, data: seq<Byte>, buf: array<Byte>) returns (wrote: int, got: int)
    requires fmc.bus.Idle() && !fmc.fake && fmc.eeprom != null && fmc.eeprom.Length == EEPROM_SIZE && fmc.eeprom != buf
    requires offset + |data| <= EEPROM_SIZE && buf.Length == |data|
    modifies fmc.bus, fmc.eeprom, buf
    ensures var c, a := old(fmc.bus.chip), fmc.eepromAddr;
            var d := WriteRun(c, a, offset, data);
            && (wrote == |data| <==> |Verdicts(c, a, |data|)| == |data|)
            && (wrote == |data| && (forall v <- Verdicts(c, a, |data|) :: v)
                && Taken(d, a, 3) == 3 && Answers(Pointed(d, a, offset), a) ==>
                  got == |data| && buf[..] == data)
  {
    hide Verdicts, WriteRun, Taken, Answers, Later, ReadEnded, LetsGo, WriteSession, SessionWire, Fetched, Pointed,
         AtRest;
    ghost var c, a := fmc.bus.chip, fmc.eepromAddr;
    ghost var d := WriteRun(c, a, offset, data);
    wrote := fmc.EepromWrite(offset, data);
    WriteRunStores(c, a, offset, data);
    FetchedIsMemory(d, a, offset, |data|);
    AllStored(c.mem, offset, data, Verdicts(c, a, |data|));
    TakenFirst(d, a);
    got := fmc.EepromRead(offset, buf);
  }

  lemma AllStored(mem: seq<Byte>, offset: nat, data: seq<Byte>, stores: seq<bool>)
    requires |stores| <= |data| && offset + |data| <= |mem|
    ensures |stores| == |data| && (forall v <- stores :: v) ==>
              Merge(mem, offset, data, stores)[offset..offset + |data|] == data
  {
    if |stores| == |data| && forall v <- stores :: v {
      var r := Merge(mem, offset, data, stores);
      forall i | 0 <= i < |data|
        ensures r[offset..offset + |data|][i] == data[i]
      {
        assert stores[i] in stores;
      }
    }
  }

  lemma TakenFirst(c: Chip, a: nat)
    ensures Taken(c, a, 3) > 0 <==> Answers(c, a)
  {
    ThreeAnswers(c.answers);
  }

  /** A bystander who knows how such EEPROMs are written replays a transcript. */
  function ReplayOne(mem: seq<Byte>, t: Transfer): (r: seq<Byte>)
    requires |mem| == EEPROM_SIZE
    ensures |r| == EEPROM_SIZE
  {
    if |t| == 4 && (forall o <- t :: o.ack) && t[3].byte < 256 then
      mem[(256 * t[1].byte + t[2].byte) % EEPROM_SIZE := t[3].byte]
    else mem
  }

  function Replay(mem: seq<Byte>, ts: seq<Transfer>): (r: seq<Byte>)
    requires |mem| == EEPROM_SIZE
    ensures |r| == EEPROM_SIZE
    decreases |ts|
  {
    if ts == [] then mem else Replay(ReplayOne(mem, ts[0]), ts[1..])
  }

  lemma {:induction false} ReplayConcat(mem: seq<Byte>, a: seq<Transfer>, b: seq<Transfer>)
    requires |mem| == EEPROM_SIZE
    ensures Replay(mem, a + b) == Replay(Replay(mem, a), b)
    decreases |a|
  {
    hide ReplayOne;
    if a == [] {
      assert a + b == b;
    } else {
      assert (a + b)[1..] == a[1..] + b;
      ReplayConcat(ReplayOne(mem, a[0]), a[1..], b);
    }
  }

  lemma ReplayWriteTransfer(mem: seq<Byte>, a: nat, offset: nat, b: Byte, k: nat)
    requires |mem| == EEPROM_SIZE && offset < EEPROM_SIZE && k <= 4
    ensures ReplayOne(mem, WriteTransfer(a, offset, b, k)) == if k == 4 then mem[offset := b] else mem
  {
    var t := WriteTransfer(a, offset, b, k);
    Pointer(offset);
    assert k < 4 ==> !t[3].ack;
  }

  lemma MergeFront(mem: seq<Byte>, offset: nat, data: seq<Byte>, first: bool, stores: seq<bool>)
    requires |stores| < |data| && offset + |data| <= |mem|
    ensures var mem' := if first then mem[offset := data[0]] else mem;
            Merge(mem', offset + 1, data[1..], stores) == Merge(mem, offset, data, [first] + stores)
  {
  }

  lemma {:induction false} ReplayPolls(mem: seq<Byte>, device: nat, answers: seq<bool>)
    requires |mem| == EEPROM_SIZE
    ensures Replay(mem, PollSession(device, answers)) == mem
    decreases |answers|
  {
    if !Ready(answers) {
      ReplayPolls(mem, device, answers[1..]);
      assert PollSession(device, answers)[1..] == PollSession(device, answers[1..]);
    } else {
      assert PollSession(device, answers)[1..] == [];
    }
  }

  /** The transcript of a write tells exactly what became of the memory: the bytes
      whose transfers were acknowledged to the end, at their addresses, and no others. */
  lemma {:induction false} WriteReplays(mem: seq<Byte>, a: nat, offset: nat, data: seq<Byte>,
                                        present: bool, answers: seq<bool>)
    requires |mem| == EEPROM_SIZE && offset + |data| <= EEPROM_SIZE
    ensures Replay(mem, WriteSession(a, offset, data, present, answers))
         == Merge(mem, offset, data, Stores(present, answers, |data|))
    decreases |data|
  {
    hide ReplayOne, Merge, WriteTransfer, Acknowledged, Remaining;
    if data != [] && present && Ready(answers) {
      var k, left := Acknowledged(answers, 4), Remaining(answers, 4);
      var poll := PollSession(2 * a % 256, left);
      var rest := WriteSession(a, offset + 1, data[1..], present, Settled(left));
      var mem' := if k == 4 then mem[offset := data[0]] else mem;
      var head := [WriteTransfer(a, offset, data[0], k)];
      ReplayWriteTransfer(mem, a, offset, data[0], k);
      assert Replay(mem, head) == mem' by { assert head[1..] == []; }
      ReplayConcat(mem, head + poll, rest);
      ReplayConcat(mem, head, poll);
      ReplayPolls(mem', 2 * a % 256, left);
      WriteReplays(mem', a, offset + 1, data[1..], present, Settled(left));
      MergeFront(mem, offset, data, k == 4, Stores(present, Settled(left), |data| - 1));
    } else {
      NothingStored(mem, offset, data);
      NothingServed(mem, a);
    }
  }

  lemma NothingStored(mem: seq<Byte>, offset: nat, data: seq<Byte>)
    requires offset + |data| <= |mem|
    ensures Merge(mem, offset, data, []) == mem
  {
  }

  lemma NothingServed(mem: seq<Byte>, a: nat)
    requires |mem| == EEPROM_SIZE
    ensures Replay(mem, [[Octet(2 * a % 256, false)]]) == mem
  {
  }

  /** The transfers of four bytes in a transcript. */
  function Quads(ts: seq<Transfer>): (r: seq<Transfer>)
    ensures forall t <- r :: |t| == 4
  {
    if ts == [] then [] else (if |ts[0]| == 4 then [ts[0]] else []) + Quads(ts[1..])
  }

  /** After every transfer of four bytes the device is polled until it answers, before
      anything else. */
  ghost predicate Awaited(ts: seq<Transfer>, device: nat) {
    forall j :: 0 <= j < |ts| && |ts[j]| == 4 ==> exists m :: AwaitedAt(ts, device, j, m)
  }

  ghost predicate AwaitedAt(ts: seq<Transfer>, device: nat, j: nat, m: nat) {
    j < m < |ts| && ts[m] == [Octet(device, true)] && forall i :: j < i < m ==> ts[i] == [Octet(device, false)]
  }

  lemma {:induction false} PollShape(device: nat, answers: seq<bool>)
    ensures var ts := PollSession(device, answers);
            && ts != [] && ts[|ts| - 1] == [Octet(device, true)]
            && (forall i :: 0 <= i < |ts| - 1 ==> ts[i] == [Octet(device, false)])
            && Quads(ts) == []
    decreases |answers|
  {
    if !Ready(answers) {
      PollShape(device, answers[1..]);
      assert PollSession(device, answers)[1..] == PollSession(device, answers[1..]);
    } else {
      assert PollSession(device, answers)[1..] == [];
    }
  }

  lemma {:induction false} QuadsConcat(a: seq<Transfer>, b: seq<Transfer>)
    ensures Quads(a + b) == Quads(a) + Quads(b)
    decreases |a|
  {
    if a == [] {
      assert a + b == b;
    } else {
      assert (a + b)[1..] == a[1..] + b;
      QuadsConcat(a[1..], b);
      Assoc(if |a[0]| == 4 then [a[0]] else [], Quads(a[1..]), Quads(b));
    }
  }

  lemma AwaitedConcat(a: seq<Transfer>, b: seq<Transfer>, device: nat)
    requires Awaited(a, device) && Awaited(b, device)
    ensures Awaited(a + b, device)
  {
    forall j | 0 <= j < |a + b| && |(a + b)[j]| == 4
      ensures exists m :: AwaitedAt(a + b, device, j, m)
    {
      if j < |a| {
        var m :| AwaitedAt(a, device, j, m);
        assert AwaitedAt(a + b, device, j, m);
      } else {
        var m :| AwaitedAt(b, device, j - |a|, m);
        assert AwaitedAt(a + b, device, j, |a| + m);
      }
    }
  }

  lemma OneAwaited(t: Transfer, device: nat, answers: seq<bool>)
    requires |t| == 4
    ensures Awaited([t] + PollSession(device, answers), device)
    ensures Quads([t] + PollSession(device, answers)) == [t]
  {
    var poll := PollSession(device, answers);
    PollShape(device, answers);
    var ts := [t] + poll;
    assert ts[1..] == poll;
    assert AwaitedAt(ts, device, 0, |poll|);
  }

  /** Byte `k` of a write goes out once, in its turn and to its own address. */
  ghost predicate Carries(t: Transfer, a: nat, offset: nat, b: Byte) {
    && |t| == 4 && t[0].byte == 2 * a % 256 && t[3].byte == b
    && t[1].byte == offset / 256 % 256 && t[2].byte == offset % 256
  }

  /** The shape of a write session of which `n` bytes are seen through: one transfer for each
      of them, in order, followed by polls until the EEPROM is ready again.  If that is all
      of them the session ends with the answer to a poll, otherwise with the device byte that
      was refused. */
  ghost predicate Shaped(ts: seq<Transfer>, n: nat, a: nat, offset: nat, data: seq<Byte>) {
    && |Quads(ts)| == n <= |data|
    && (forall k :: 0 <= k < n ==> Carries(Quads(ts)[k], a, offset + k, data[k]))
    && Awaited(ts, 2 * a % 256)
    && (data != [] ==> ts != [] && ts[|ts| - 1] == [Octet(2 * a % 256, n == |data|)])
  }

  lemma ShapedStep(t: Transfer, poll: seq<Transfer>, rest: seq<Transfer>, n: nat, a: nat, offset: nat, data: seq<Byte>)
    requires data != [] && Carries(t, a, offset, data[0]) && Shaped(rest, n, a, offset + 1, data[1..])
    requires Awaited([t] + poll, 2 * a % 256) && Quads([t] + poll) == [t]
    requires poll != [] && poll[|poll| - 1] == [Octet(2 * a % 256, true)] && (|data| == 1 ==> rest == [])
    ensures Shaped([t] + poll + rest, n + 1, a, offset, data)
  {
    hide Awaited, Quads, Carries;
    AwaitedConcat([t] + poll, rest, 2 * a % 256);
    QuadsConcat([t] + poll, rest);
  }

  /** Every write session has that shape, whatever is refused in it. */
  lemma {:induction false} WriteSessionShape(a: nat, offset: nat, data: seq<Byte>, present: bool, answers: seq<bool>)
    ensures Shaped(WriteSession(a, offset, data, present, answers), |Stores(present, answers, |data|)|, a, offset, data)
    decreases |data|
  {
    hide Acknowledged, Remaining, Awaited, Settled, Quads, PollSession, WriteTransfer, Carries;
    var device := 2 * a % 256;
    if data == [] {
      NoTransfers(device);
    } else if !present || !Ready(answers) {
      LoneRefusal(device);
    } else {
      hide Shaped;
      var left := Remaining(answers, 4);
      var t := WriteTransfer(a, offset, data[0], Acknowledged(answers, 4));
      TransferCarries(a, offset, data[0], Acknowledged(answers, 4));
      OneAwaited(t, device, left);
      PollShape(device, left);
      var rest := WriteSession(a, offset + 1, data[1..], present, Settled(left));
      var n := |Stores(present, Settled(left), |data| - 1)|;
      WriteSessionShape(a, offset + 1, data[1..], present, Settled(left));
      ShapedStep(t, PollSession(device, left), rest, n, a, offset, data);
    }
  }

  lemma TransferCarries(a: nat, offset: nat, b: Byte, k: nat)
    ensures Carries(WriteTransfer(a, offset, b, k), a, offset, b)
  {
  }

  lemma NoTransfers(device: nat)
    ensures Awaited([], device) && Quads([]) == []
  {
  }

  lemma LoneRefusal(device: nat)
    ensures Awaited([[Octet(device, false)]], device) && Quads([[Octet(device, false)]]) == []
  {
  }

  /** Every byte of a transcript fits in eight bits, so that `SessionIsHeard`
      applies to reads and writes alike. */
  lemma {:induction false} WriteIsHeard(done: seq<Transfer>, a: nat, offset: nat, data: seq<Byte>,
                                        present: bool, answers: seq<bool>)
    ensures Hear(Quiet(done), SessionWire(WriteSession(a, offset, data, present, answers)))
         == Quiet(done + WriteSession(a, offset, data, present, answers))
  {
    hide Hear, SessionWire;
    WriteBytes(a, offset, data, present, answers);
    SessionIsHeard(done, WriteSession(a, offset, data, present, answers));
  }

  lemma {:induction false} PollBytes(device: nat, answers: seq<bool>)
    requires device < 256
    ensures AllBytes(PollSession(device, answers))
    decreases |answers|
  {
    if !Ready(answers) {
      PollBytes(device, answers[1..]);
    }
  }

  lemma {:induction false} WriteBytes(a: nat, offset: nat, data: seq<Byte>, present: bool, answers: seq<bool>)
    ensures AllBytes(WriteSession(a, offset, data, present, answers))
    decreases |data|
  {
    hide Acknowledged, Remaining;
    if data != [] && present && Ready(answers) {
      PollBytes(2 * a % 256, Remaining(answers, 4));
      WriteBytes(a, offset + 1, data[1..], present, Settled(Remaining(answers, 4)));
    }
  }

  lemma ReadIsHeard(done: seq<Transfer>, a: nat, offset: nat, k: nat, heard: bool, data: seq<Byte>)
    ensures var ts := [AddressTransfer(a, offset, k), ReadTransfer(a, heard, data)];
            Hear(Quiet(done), SessionWire(ts)) == Quiet(done + ts)
    ensures Hear(Quiet(done), SessionWire([[Octet(2 * a % 256, false)]])) == Quiet(done + [[Octet(2 * a % 256, false)]])
  {
    hide Hear, SessionWire;
    SessionIsHeard(done, [AddressTransfer(a, offset, k), ReadTransfer(a, heard, data)]);
    SessionIsHeard(done, [[Octet(2 * a % 256, false)]]);
  }
}
