/** The life of an EEPROM and its shadow: set up by the driver, then read and written in
any order, with any bytes refused on the way. */
module I2cRuns {
  import opened Common
  import opened I2cWire
  import opened SpecI2c

  datatype Call = Read(offset: nat, size: nat) | Write(offset: nat, data: seq<Byte>)

  /** What two calls have between them. */
  datatype Pair = Pair(chip: Chip, shadow: seq<Byte>)
  {
    ghost predicate Ok() { chip.Ok() && |shadow| == EEPROM_SIZE }
    ghost predicate Coherent() { shadow == chip.mem }
  }

  predicate InRange(call: Call) {
    match call
    case Read(offset, size) => offset + size <= EEPROM_SIZE
    case Write(offset, data) => offset + |data| <= EEPROM_SIZE
  }

  /** The EEPROM after a read of which it has let go. */
  ghost function ReadRun(c: Chip, a: nat, offset: nat, size: nat): (r: Chip)
    requires c.Ok()
    ensures r.Ok() && r.mem == c.mem
  {
    if !Answers(c, a) then AtRest(c, c.ptr, Later(c, a, 1))
    else
      var d := Pointed(c, a, offset);
      AtRest(d, Reading(d, a, size, size).ptr, Later(d, a, 1))
  }

  /** One call on a real EEPROM (`fake` unset), or on one that is an image in memory. */
  ghost function Effect(p: Pair, a: nat, fake: bool, call: Call): (q: Pair)
    requires p.Ok()
    ensures q.Ok()
  {
    if !InRange(call) then p
    else match call
      case Read(offset, size) => if fake then p else p.(chip := ReadRun(p.chip, a, offset, size))
      case Write(offset, data) =>
        var k := if fake then |data| else |Verdicts(p.chip, a, |data|)|;
        Pair(if fake then p.chip else WriteRun(p.chip, a, offset, data), Splice(p.shadow, offset, data[..k]))
  }

  ghost function After(p: Pair, a: nat, fake: bool, calls: seq<Call>, n: nat): (q: Pair)
    requires p.Ok() && n <= |calls|
    ensures q.Ok()
  {
    if n == 0 then p else Effect(After(p, a, fake, calls, n - 1), a, fake, calls[n - 1])
  }

  /** Does the EEPROM let go of the bus at the end of the call? */
  ghost predicate Ends(p: Pair, a: nat, fake: bool, call: Call)
    requires p.Ok()
  {
    call.Read? && !fake && InRange(call) && Answers(p.chip, a) ==> LetsGo(p.chip, a, call.offset, call.size)
  }

  /** The condition of `WriteKeepsCoherence`: no byte the driver sees through is refused half
      way, unless it is there already. */
  ghost predicate Keeps(p: Pair, a: nat, fake: bool, call: Call)
    requires p.Ok()
  {
    call.Write? && InRange(call) ==>
      if fake then p.shadow[call.offset..call.offset + |call.data|] == call.data
      else
        var stores := Verdicts(p.chip, a, |call.data|);
        forall i :: 0 <= i < |stores| ==> stores[i] || p.shadow[call.offset + i] == call.data[i]
  }

  lemma CallKeepsCoherence(p: Pair, a: nat, fake: bool, call: Call)
    requires p.Ok() && p.Coherent()
    ensures Effect(p, a, fake, call).Coherent() <==> Keeps(p, a, fake, call)
  {
    hide Verdicts, Splice, WriteSession, SessionWire, ReadRun;
    if call.Write? && InRange(call) {
      var k := if fake then |call.data| else |Verdicts(p.chip, a, |call.data|)|;
      var s := Snapshot(p.chip, [], p.shadow);
      var q := Effect(p, a, fake, call);
      var t := if fake then []
               else [] + SessionWire(WriteSession(a, call.offset, call.data, p.chip.addr == a % 128, p.chip.answers));
      WriteKeepsCoherence(fake, a, call.offset, call.data, s, if k == |call.data| then |call.data| else -1,
                          Snapshot(q.chip, t, q.shadow));
    }
  }

  /** Coherent before the first of `n` calls and after each of them. */
  ghost predicate Throughout(p: Pair, a: nat, fake: bool, calls: seq<Call>, n: nat)
    requires p.Ok() && n <= |calls|
  {
    forall m :: 0 <= m <= n ==> After(p, a, fake, calls, m).Coherent()
  }

  ghost predicate AllKeep(p: Pair, a: nat, fake: bool, calls: seq<Call>, n: nat)
    requires p.Ok() && n <= |calls|
  {
    forall m :: 0 <= m < n ==> Keeps(After(p, a, fake, calls, m), a, fake, calls[m])
  }

  lemma BeforeAnyCall(p: Pair, a: nat, fake: bool, calls: seq<Call>)
    requires p.Ok()
    ensures After(p, a, fake, calls, 0) == p && AllKeep(p, a, fake, calls, 0)
    ensures Throughout(p, a, fake, calls, 0) <==> p.Coherent()
    ensures AllEnd(p, a, fake, calls, 0)
  {
  }

  ghost predicate AllEnd(p: Pair, a: nat, fake: bool, calls: seq<Call>, n: nat)
    requires p.Ok() && n <= |calls|
  {
    forall m :: 0 <= m < n ==> Ends(After(p, a, fake, calls, m), a, fake, calls[m])
  }

  lemma OneMoreCall(p: Pair, a: nat, fake: bool, calls: seq<Call>, n: nat)
    requires p.Ok() && n < |calls|
    ensures Throughout(p, a, fake, calls, n + 1) <==>
            Throughout(p, a, fake, calls, n) && After(p, a, fake, calls, n + 1).Coherent()
    ensures AllKeep(p, a, fake, calls, n + 1) <==>
            AllKeep(p, a, fake, calls, n) && Keeps(After(p, a, fake, calls, n), a, fake, calls[n])
    ensures AllEnd(p, a, fake, calls, n + 1) <==>
            AllEnd(p, a, fake, calls, n) && Ends(After(p, a, fake, calls, n), a, fake, calls[n])
    ensures Throughout(p, a, fake, calls, n) ==> After(p, a, fake, calls, n).Coherent()
    ensures After(p, a, fake, calls, n + 1) == Effect(After(p, a, fake, calls, n), a, fake, calls[n])
  {
    hide Effect, Keeps, Ends, Pair.Coherent;
  }

  /** Over any sequence of reads and writes the shadow is the chip's memory at every moment
      if and only if every call meets that condition when its turn comes. */
  lemma {:induction false} AlwaysCoherentIff(p: Pair, a: nat, fake: bool, calls: seq<Call>, n: nat)
    requires p.Ok() && p.Coherent() && n <= |calls|
    ensures Throughout(p, a, fake, calls, n) <==> AllKeep(p, a, fake, calls, n)
  {
    hide *;
    if n == 0 {
      BeforeAnyCall(p, a, fake, calls);
    } else {
      AlwaysCoherentIff(p, a, fake, calls, n - 1);
      OneMoreCall(p, a, fake, calls, n - 1);
      if After(p, a, fake, calls, n - 1).Coherent() {
        CallKeepsCoherence(After(p, a, fake, calls, n - 1), a, fake, calls[n - 1]);
      }
    }
  }

  /** Is byte `i` the one that a read from the old address counter brings back for it? */
  predicate Recurs(c: Chip, i: nat)
    requires |c.mem| == EEPROM_SIZE && i < EEPROM_SIZE
  {
    c.mem[i] == c.mem[(c.ptr + i) % EEPROM_SIZE]
  }

  /** Was the read of the whole chip acknowledged, so far as it matters? */
  ghost predicate SetUpRight(c: Chip, a: nat)
    requires c.Ok()
  {
    if !Answers(Pointed(c, a, 0), a) then forall i :: 0 <= i < EEPROM_SIZE ==> c.mem[i] == 255
    else Taken(c, a, 3) == 3 || forall i :: 0 <= i < EEPROM_SIZE ==> Recurs(c, i)
  }

  /** The shadow that a scan and a read of the whole chip set up is the chip's memory if and
      only if that read was acknowledged, or the memory looks the same from elsewhere. */
  lemma SetUpCoherentIff(c: Chip, a: nat)
    requires c.Ok()
    ensures Fetched(c, a, 0, EEPROM_SIZE) == c.mem <==> SetUpRight(c, a)
  {
    hide Fetched, Pointed, Answers, Taken;
    FetchedIsRightIff(c, a, 0, EEPROM_SIZE);
    var m := c.mem[0..EEPROM_SIZE];
    assert m == c.mem;
    forall i | 0 <= i < EEPROM_SIZE
      ensures m[i] == c.mem[(c.ptr + i) % EEPROM_SIZE] <==> Recurs(c, i)
    {
    }
  }

  /** The calls, one after the other, as long as the bus is free for the next one. */
  method Live(fmc: Fmc, calls: seq<Call>) returns (n: nat)
    requires fmc.bus.Idle() && fmc.eeprom != null && fmc.eeprom.Length == EEPROM_SIZE
    modifies fmc.bus, fmc.eeprom
    ensures n <= |calls|
    ensures var p, a, fake := old(Pair(fmc.bus.chip, fmc.eeprom[..])), fmc.eepromAddr, fmc.fake;
            && AllEnd(p, a, fake, calls, n)
            && (n < |calls| ==> !Ends(After(p, a, fake, calls, n), a, fake, calls[n]))
            && (n == |calls| ==>
                  fmc.bus.Idle() && Pair(fmc.bus.chip, fmc.eeprom[..]) == After(p, a, fake, calls, n))
  {
    hide Effect, Ends, After, AllEnd, Chip.Ok;
    ghost var p, a := Pair(fmc.bus.chip, fmc.eeprom[..]), fmc.eepromAddr;
    BeforeAnyCall(p, a, fmc.fake, calls);
    n := 0;
    while n < |calls|
      invariant n <= |calls| && fmc.bus.Idle()
      invariant Pair(fmc.bus.chip, fmc.eeprom[..]) == After(p, a, fmc.fake, calls, n)
      invariant AllEnd(p, a, fmc.fake, calls, n)
    {
      var free := Make(fmc, calls[n]);
      OneMoreCall(p, a, fmc.fake, calls, n);
      if !free {
        return;
      }
      n := n + 1;
    }
  }

  method Make(fmc: Fmc, call: Call) returns (free: bool)
    requires fmc.bus.Idle() && fmc.eeprom != null && fmc.eeprom.Length == EEPROM_SIZE
    modifies fmc.bus, fmc.eeprom
    ensures var p := old(Pair(fmc.bus.chip, fmc.eeprom[..]));
            && (free <==> Ends(p, fmc.eepromAddr, fmc.fake, call))
            && (free ==> fmc.bus.Idle()
                         && Pair(fmc.bus.chip, fmc.eeprom[..]) == Effect(p, fmc.eepromAddr, fmc.fake, call))
  {
    match call {
      case Read(offset, size) =>
        var buf := new Byte[size](_ => 0);
        var _ := fmc.EepromRead(offset, buf);
        free := fmc.bus.scl && fmc.bus.Line() && fmc.bus.chip.phase.Deaf?;
      case Write(offset, data) =>
        var _ := fmc.EepromWrite(offset, data);
        free := true;
    }
  }

  /** The whole life of a real EEPROM: `p` is what the set-up leaves.  If all calls are made,
      the shadow was the chip's memory from the set-up on, and is at the end, if and only if
      the set-up was right and every call met its condition. */
  method FromTheStart(fmc: Fmc, calls: seq<Call>) returns (ret: int, n: nat, ghost p: Pair)
    requires fmc.bus.Idle() && !fmc.fake && fmc.eeprom == null
    modifies fmc, fmc.bus
    ensures var c, a := old(fmc.bus.chip), fmc.eepromAddr;
            var d := AtRest(c, c.ptr, Later(c, a, 1));
            && n <= |calls| && (ret == 0 && fmc.eeprom != null <==> Answers(c, a) && Answers(d, a))
            && (ret == 0 && fmc.eeprom != null ==>
                  && p.Ok() && p.chip.mem == c.mem && p.shadow == Fetched(d, a, 0, EEPROM_SIZE)
                  && (n == |calls| ==> Pair(fmc.bus.chip, fmc.eeprom[..]) == After(p, a, false, calls, n))
                  && (Throughout(p, a, false, calls, n) <==> SetUpRight(d, a) && AllKeep(p, a, false, calls, n)))
  {
    hide Effect, After, AllEnd, AllKeep, Throughout, Fetched, Answers, Later, Pointed, Taken, Ends;
    ghost var c, a := fmc.bus.chip, fmc.eepromAddr;
    ghost var d := AtRest(c, c.ptr, Later(c, a, 1));
    n, p := 0, Pair(c, c.mem);
    ret := fmc.I2cInit(true, None);
    if ret == 0 && fmc.eeprom != null {
      p := Pair(fmc.bus.chip, fmc.eeprom[..]);
      n := Live(fmc, calls);
      SetUpCoherentIff(d, a);
      CoherentFrom(p, a, calls, n);
    }
  }

  lemma CoherentFrom(p: Pair, a: nat, calls: seq<Call>, n: nat)
    requires p.Ok() && n <= |calls|
    ensures Throughout(p, a, false, calls, n) <==> p.Coherent() && AllKeep(p, a, false, calls, n)
  {
    if p.Coherent() {
      AlwaysCoherentIff(p, a, false, calls, n);
    } else {
      assert !After(p, a, false, calls, 0).Coherent();
    }
  }
}
