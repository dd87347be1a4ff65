/** The command-line client of the DIO driver (tools/wr-dio-cmd.c): draining the
timestamps and setting the I/O modes. */
module WrDioCmd {
  import opened Common
  import opened Timespec
  import opened WrNicDio

  // ------------------------------------------------------- stamp and stampm

  /** A line of output: a channel and one of its stamps. */
  datatype Line = Line(ch: nat, ts: Timespec)

  function Tagged(i: nat, q: seq<Timespec>): seq<Line> { seq(|q|, k requires 0 <= k < |q| => Line(i, q[k])) }

  /** All stamps of the selected channels from `i` on, by channel. */
  function Lines(chans: seq<ChanView>, sel: set<nat>, i: nat): seq<Line>
    requires |chans| == CHANNELS && i <= CHANNELS
    decreases CHANNELS - i
  {
    if i == CHANNELS then []
    else (if i in sel then Tagged(i, chans[i].queue) else []) + Lines(chans, sel, i + 1)
  }

  /** The channels once the selected ones have been emptied. */
  function Drained(chans: seq<ChanView>, sel: set<nat>): seq<ChanView>
    requires |chans| == CHANNELS
  {
    seq(CHANNELS, i requires 0 <= i < CHANNELS => if i in sel then chans[i].(queue := []) else chans[i])
  }

  /** One reply of the driver. */
  datatype Reply = Reply(ch: nat, ts: seq<Timespec>)

  function Printed(replies: seq<Reply>): seq<Line> {
    if replies == [] then []
    else Printed(replies[..|replies| - 1]) + Tagged(replies[|replies| - 1].ch, replies[|replies| - 1].ts)
  }

  /** Selected channels without stamps contribute nothing. */
  lemma {:induction false} SkipEmpty(chans: seq<ChanView>, sel: set<nat>, i: nat, k: nat)
    requires |chans| == CHANNELS && i <= k <= CHANNELS
    requires forall j :: i <= j < k && j in sel ==> chans[j].queue == []
    ensures Lines(chans, sel, i) == Lines(chans, sel, k)
    decreases k - i
  {
    if i < k {
      SkipEmpty(chans, sel, i + 1, k);
      assert (if i in sel then Tagged(i, chans[i].queue) else []) == [];
    }
  }

  lemma {:induction false} SameTail(a: seq<ChanView>, b: seq<ChanView>, sel: set<nat>, i: nat)
    requires |a| == |b| == CHANNELS && i <= CHANNELS && a[i..] == b[i..]
    ensures Lines(a, sel, i) == Lines(b, sel, i)
    decreases CHANNELS - i
  {
    if i < CHANNELS {
      assert a[i] == a[i..][0] == b[i..][0] == b[i];
      assert a[i + 1..] == a[i..][1..] == b[i..][1..] == b[i + 1..];
      SameTail(a, b, sel, i + 1);
    }
  }

  /** A reply takes its lines from the front of what is to be printed. */
  lemma ReplyIsNext(d: DevView, sel: set<nat>)
    requires d.Ok() && FirstReady(d.chans, sel, 0) < CHANNELS
    ensures var d', k := StampStep(d, sel), FirstReady(d.chans, sel, 0);
            && Lines(d.chans, sel, 0) == Tagged(k, Stamped(d, sel)) + Lines(d'.chans, sel, 0)
            && Drained(d'.chans, sel) == Drained(d.chans, sel)
            && Stamped(d, sel) != []
  {
    hide FirstReady, Lines, Tagged;
    var d', k := StampStep(d, sel), FirstReady(d.chans, sel, 0);
    var q := d.chans[k].queue;
    var n := Batch(q);
    SkipEmpty(d.chans, sel, 0, k);
    SkipEmpty(d'.chans, sel, 0, k);
    FirstOf(d.chans, sel, k);
    FirstOf(d'.chans, sel, k);
    SameTail(d.chans, d'.chans, sel, k + 1);
    TaggedSplit(k, q, n);
    Assoc(Tagged(k, q[..n]), Tagged(k, q[n..]), Lines(d.chans, sel, k + 1));
    assert Drained(d'.chans, sel) == Drained(d.chans, sel);
  }

  lemma FirstOf(chans: seq<ChanView>, sel: set<nat>, k: nat)
    requires |chans| == CHANNELS && k < CHANNELS && k in sel
    ensures Lines(chans, sel, k) == Tagged(k, chans[k].queue) + Lines(chans, sel, k + 1)
  {
  }

  lemma TaggedSplit(i: nat, q: seq<Timespec>, n: nat)
    requires n <= |q|
    ensures Tagged(i, q) == Tagged(i, q[..n]) + Tagged(i, q[n..])
  {
  }

  lemma PrintedSnoc(replies: seq<Reply>, r: Reply)
    ensures Printed(replies + [r]) == Printed(replies) + Tagged(r.ch, r.ts)
  {
  }

  /** scan_stamp, without "wait": ask until the driver has nothing more.  It
      terminates, prints every stamp of the selected channels once, by channel and
      then in order of arrival, in replies of sixteen stamps of one channel (only the
      last one of a channel may be shorter), and leaves the other channels alone. */
  method ScanStamp(dio: Dio, isMask: bool, channel: nat) returns (out: seq<Line>, ghost replies: seq<Reply>)
    requires dio.Valid() && if isMask then channel <= 31 else channel <= 4
    modifies dio.ch
    ensures dio.Valid()
    ensures var sel := Selection(Flags(false, false, isMask, false, false), channel);
            && out == Lines(old(dio.View()).chans, sel, 0)
            && dio.View() == old(dio.View()).(chans := Drained(old(dio.View()).chans, sel))
    ensures out == Printed(replies)
    ensures forall r <- replies :: 0 < |r.ts| <= N_STAMP
    ensures forall j, k :: 0 <= j < k < |replies| && replies[j].ch == replies[k].ch ==> |replies[j].ts| == 16
  {
    hide Selection, Lines, Drained, FirstReady, StampStep, Stamped, Took, Full;
    var flags := Flags(false, false, isMask, false, false);
    ghost var d, sel := dio.View(), Selection(flags, channel);
    out, replies := [], [];
    NoReplies(d.chans);
    while true
      invariant dio.Valid()
      invariant dio.View() == d.(chans := dio.View().chans)
      invariant out + Lines(dio.View().chans, sel, 0) == Lines(d.chans, sel, 0)
      invariant Drained(dio.View().chans, sel) == Drained(d.chans, sel)
      invariant out == Printed(replies)
      invariant forall r <- replies :: 0 < |r.ts| <= N_STAMP
      invariant Full(replies, dio.View().chans)
      decreases |Lines(dio.View().chans, sel, 0)|
    {
      ghost var e := dio.View();
      var ret, from, ts, _ := dio.CmdStamp(flags, channel);
      StampFacts(e, sel);
      if ret == -EAGAIN {
        FullMeans(replies, dio.View().chans);
        break;
      }
      FullStep(replies, e, sel, Reply(from, ts), dio.View());
      ReplyIsNext(e, sel);
      Assoc(out, Tagged(from, ts), Lines(dio.View().chans, sel, 0));
      PrintedSnoc(replies, Reply(from, ts));
      out := out + Tagged(from, ts);
      replies := replies + [Reply(from, ts)];
    }
  }

  /** A reply of fewer than sixteen stamps has emptied its channel, and is its last one. */
  ghost predicate Full(replies: seq<Reply>, chans: seq<ChanView>) {
    && |chans| == CHANNELS
    && (forall r <- replies :: r.ch < CHANNELS && |r.ts| <= 16 && (|r.ts| < 16 ==> chans[r.ch].queue == []))
    && forall j, k :: 0 <= j < k < |replies| && replies[j].ch == replies[k].ch ==> |replies[j].ts| == 16
  }

  lemma NoReplies(chans: seq<ChanView>)
    requires |chans| == CHANNELS
    ensures Full([], chans)
  {
  }

  lemma FullMeans(replies: seq<Reply>, chans: seq<ChanView>)
    requires Full(replies, chans)
    ensures forall j, k :: 0 <= j < k < |replies| && replies[j].ch == replies[k].ch ==> |replies[j].ts| == 16
  {
  }

  lemma FullStep(replies: seq<Reply>, d: DevView, sel: set<nat>, r: Reply, e: DevView)
    requires d.Ok() && Full(replies, d.chans) && Took(d, sel, r.ch, r.ts, e)
    ensures Full(replies + [r], e.chans)
  {
    forall x | x in replies + [r]
      ensures |x.ts| < 16 ==> e.chans[x.ch].queue == []
    {
      assert x in replies || x == r;
    }
  }

  lemma StampFacts(d: DevView, sel: set<nat>)
    requires d.Ok()
    ensures |Stamped(d, sel)| <= N_STAMP
    ensures StampStep(d, sel) == d.(chans := StampStep(d, sel).chans)
    ensures Stamped(d, sel) == [] <==> FirstReady(d.chans, sel, 0) == CHANNELS
    ensures Stamped(d, sel) == [] ==>
              Lines(d.chans, sel, 0) == [] && Drained(d.chans, sel) == d.chans && StampStep(d, sel) == d
  {
  }

  // ------------------------------------------------------------------- mode

  /** What the manual says about a mode letter: how the channel is driven, and the
      level for modes that leave it to the GPIO core (inputs are set low). */
  datatype Meaning = Meaning(mode: Mode, level: Option<bool>)

  function Manual(c: char): Option<Meaning> {
    match c
    case 'I' => Some(Meaning(Mode(Gpio, false, true), Some(false)))
    case 'i' => Some(Meaning(Mode(Gpio, false, false), Some(false)))
    case '0' => Some(Meaning(Mode(Gpio, true, false), Some(false)))
    case '1' => Some(Meaning(Mode(Gpio, true, false), Some(true)))
    case 'D' => Some(Meaning(Mode(DioCore, true, true), None))
    case 'd' => Some(Meaning(Mode(DioCore, true, false), None))
    case 'P' => Some(Meaning(Mode(Wrpc, true, true), None))
    case 'p' => Some(Meaning(Mode(Wrpc, true, false), None))
    case 'C' => Some(Meaning(Mode(Wrpc, false, true), None))
    case 'c' => Some(Meaning(Mode(Wrpc, false, false), None))
    case _ => None
  }

  /** Channel 0 has no plain output modes; '-' stands for "no change". */
  predicate Accepted(c: char, i: nat) {
    c == '-' || (Manual(c).Some? && !(i == 0 && c in "dD01"))
  }

  /** Letter by letter. */
  lemma AcceptedLetters(c: char, i: nat)
    ensures Accepted(c, i) <==> c in if i == 0 then "-IiPpCc" else "-IiPpCcDd01"
  {
  }

  /** The request of a letter. */
  function LetterAsk(c: char): Ask {
    Ask(c in "DdCcPp", c in "CcPp1", c in "DdPp10", c in "DCPI")
  }

  lemma Letters(c: char)
    ensures Manual(c).Some? <==> c in "DdCcPpIi10"
  {
  }

  lemma LetterMeans(c: char)
    requires Manual(c).Some?
    ensures Requested(LetterAsk(c)) == Manual(c).value.mode
    ensures Manual(c).value.level == if Requested(LetterAsk(c)).source == Gpio then Some(LetterAsk(c).value) else None
  {
  }

  /** `m | 1 << i` */
  function WithBit(m: nat, i: nat): nat { if i == 0 then m / 2 * 2 + 1 else 2 * WithBit(m / 2, i - 1) + m % 2 }

  lemma {:induction false} WithBitHas(m: nat, i: nat, j: nat)
    ensures HasBit(WithBit(m, i), j) <==> j == i || HasBit(m, j)
  {
    var w := WithBit(m, i);
    if i > 0 {
      assert w / 2 == WithBit(m / 2, i - 1) && w % 2 == m % 2;
      if j > 0 {
        WithBitHas(m / 2, i - 1, j - 1);
      }
    } else {
      assert w / 2 == m / 2;
    }
  }

  lemma {:induction false} NoBits(j: nat)
    ensures !HasBit(0, j)
  {
    if j > 0 {
      NoBits(j - 1);
    }
  }

  /** `value | bits << i` */
  function WithBits(value: bv32, bits: bv32, i: nat): bv32 { value | MovedUp(bits, i) }

  const NOTHING := Ask(false, false, false, false)

  function Either(a: Ask, b: Ask): Ask {
    Ask(a.dio || b.dio, a.value || b.value, a.output || b.output, a.term || b.term)
  }

  /** The bits of a request that say the same thing as `ask`. */
  function Single(ask: Ask): bv32 {
    if ask.dio then INOUT_DIO else if ask.value then INOUT_VALUE else if ask.output then INOUT_OUTPUT
    else if ask.term then INOUT_TERM else 0
  }

  const DIO := Ask(true, false, false, false)
  const VALUE := Ask(false, true, false, false)
  const OUTPUT := Ask(false, false, true, false)
  const TERM := Ask(false, false, false, true)

  /** OR-ing a bit into the request of one channel leaves the others alone. */
  lemma BitAdded(value: bv32, ask: Ask, i: nat, j: nat)
    requires i < CHANNELS && j < CHANNELS && ask in {DIO, VALUE, OUTPUT, TERM}
    ensures Field(WithBits(value, Single(ask), i), j)
         == if j == i then Either(Field(value, j), ask) else Field(value, j)
  {
    hide Single, WithBits, Field, Moved;
    FieldsOr(value, Single(ask), i, j);
    BitMoved(ask, i, j);
  }

  /** What bits for channel `i` look like from channel `j`. */
  function Moved(bits: bv32, i: nat, j: nat): Ask { Field(MovedUp(bits, i), j) }

  lemma FieldsOr(value: bv32, bits: bv32, i: nat, j: nat)
    requires j < CHANNELS
    ensures Field(WithBits(value, bits, i), j) == Either(Field(value, j), Moved(bits, i, j))
  {
    hide MovedUp, Field;
    EachOr(value, MovedUp(bits, i), j);
  }

  lemma EachOr(x: bv32, y: bv32, j: nat)
    requires j < CHANNELS
    ensures Field(x | y, j) == Either(Field(x, j), Field(y, j))
  {
    if j == 0 {
    } else if j == 1 {
    } else if j == 2 {
    } else if j == 3 {
    } else {
    }
  }

  lemma BitMoved(ask: Ask, i: nat, j: nat)
    requires i < CHANNELS && j < CHANNELS && ask in {DIO, VALUE, OUTPUT, TERM}
    ensures Moved(Single(ask), i, j) == if j == i then ask else NOTHING
  {
  }

  lemma NoFields(j: nat)
    ensures Field(0, j) == NOTHING
  {
  }

  /** The globals of the tool that a mode request is built in. */
  class ModeCmd {
    var channel: nat
    var value: bv32

    constructor ()
      ensures channel == 0 && value == 0
    {
      channel, value := 0, 0;
    }

    /** one_mode */
    method OneMode(c: char, i: nat) returns (ret: int)
      requires i < CHANNELS
      modifies this
      ensures ret == if Accepted(c, i) then 0 else -1
      ensures c == '-' ==> unchanged(this)
      ensures c != '-' ==> channel == WithBit(old(channel), i)
      ensures c != '-' && ret == 0 ==>
                forall j :: 0 <= j < CHANNELS ==>
                  Field(value, j) == if j == i then Either(Field(old(value), j), LetterAsk(c)) else Field(old(value), j)
    {
      hide Field, WithBit, WithBits;
      if c == '-' {
        return 0;
      }
      channel := WithBit(channel, i);
      if i == 0 && c in "dD01" {
        return -1;
      }
      ret := Switch(c, i);
    }

    /** The letter loop of scan_inout. */
    method AllModes(s: string) returns (ret: int)
      requires |s| == CHANNELS && channel == 0 && value == 0
      modifies this
      ensures ret == if (forall i :: 0 <= i < CHANNELS ==> Accepted(s[i], i)) then 0 else -1
      ensures ret == 0 ==> Asked(channel, value, s, CHANNELS)
    {
      hide Asked, Accepted;
      NothingAsked(s);
      ret := 0;
      var i := 0;
      while i < CHANNELS
        invariant 0 <= i <= CHANNELS && ret == 0
        invariant forall j :: 0 <= j < i ==> Accepted(s[j], j)
        invariant Asked(channel, value, s, i)
      {
        ghost var m, v := channel, value;
        ret := OneMode(s[i], i);
        if ret < 0 {
          return;
        }
        OneMoreAsked(m, v, channel, value, s, i);
        i := i + 1;
      }
    }

    /** The switch of one_mode. */
    method Switch(c: char, i: nat) returns (ret: int)
      requires i < CHANNELS
      modifies this`value
      ensures ret == if c != '-' && Manual(c).Some? then 0 else -1
      ensures ret == 0 ==>
                forall j :: 0 <= j < CHANNELS ==>
                  Field(value, j) == if j == i then Either(Field(old(value), j), LetterAsk(c)) else Field(old(value), j)
    {
      hide Field, Manual;
      Letters(c);
      if c == 'D' || c == 'd' {
        if c == 'D' {
          Or(TERM, i);
        }
        Or(DIO, i);
        Or(OUTPUT, i);
      } else if c == 'C' || c == 'c' {
        if c == 'C' {
          Or(TERM, i);
        }
        Or(DIO, i);
        Or(VALUE, i);
      } else if c == 'P' || c == 'p' {
        if c == 'P' {
          Or(TERM, i);
        }
        Or(DIO, i);
        Or(VALUE, i);
        Or(OUTPUT, i);
      } else if c == 'I' || c == 'i' {
        if c == 'I' {
          Or(TERM, i);
        }
      } else if c == '1' || c == '0' {
        if c == '1' {
          Or(VALUE, i);
        }
        Or(OUTPUT, i);
      } else {
        return -1;
      }
      ret := 0;
    }

    /** `value |= bit << i` */
    method Or(ask: Ask, i: nat)
      requires i < CHANNELS && ask in {DIO, VALUE, OUTPUT, TERM}
      modifies this`value
      ensures forall j :: 0 <= j < CHANNELS ==>
                Field(value, j) == if j == i then Either(Field(old(value), j), ask) else Field(old(value), j)
    {
      hide Field, WithBits, Single, Either;
      var v := value;
      forall j | 0 <= j < CHANNELS
        ensures Field(WithBits(v, Single(ask), i), j) == if j == i then Either(Field(v, j), ask) else Field(v, j)
      {
        BitAdded(v, ask, i, j);
      }
      value := WithBits(v, Single(ask), i);
    }
  }

  /** scan_inout with one letter per channel: the string is accepted exactly if
      every letter is, and then every channel is in the mode the manual gives for
      its letter; a refused string changes nothing. */
  method ScanInout(dio: Dio, s: string) returns (ret: int)
    requires dio.Valid()
    modifies dio.hw`iomode, dio.hw`gpio
    ensures dio.Valid() && dio.View() == old(dio.View())
    ensures ret == 0 || ret == -1
    ensures ret == 0 <==> |s| == CHANNELS && forall i :: 0 <= i < CHANNELS ==> Accepted(s[i], i)
    ensures ret == -1 ==> dio.hw.iomode == old(dio.hw.iomode) && dio.hw.gpio == old(dio.hw.gpio)
    ensures Upper(dio.hw.iomode) == Upper(old(dio.hw.iomode))
    ensures ret == 0 ==>
              forall i :: 0 <= i < CHANNELS ==>
                Follows(s[i], Nibble(old(dio.hw.iomode), i), Nibble(dio.hw.iomode, i),
                        old(dio.hw.gpio)[i], dio.hw.gpio[i])
  {
    hide Selection, HasBit, Field, Nibble, Accepted, LetterAsk, Upper, InMode, Follows;
    if |s| != CHANNELS {
      return -1;
    }
    var cmd := new ModeCmd();
    ret := cmd.AllModes(s);
    if ret < 0 {
      return;
    }
    var flags := Flags(false, false, true, false, false);
    Selected(flags, cmd.channel);
    dio.CmdInout(flags, cmd.channel, cmd.value);
    forall j | 0 <= j < CHANNELS
      ensures Follows(s[j], Nibble(old(dio.hw.iomode), j), Nibble(dio.hw.iomode, j),
                      old(dio.hw.gpio)[j], dio.hw.gpio[j])
    {
      LetterFollowed(s[j], j, Nibble(old(dio.hw.iomode), j), Nibble(dio.hw.iomode, j),
                     old(dio.hw.gpio)[j], dio.hw.gpio[j]);
    }
  }

  /** The request says what the first `n` letters say. */
  ghost predicate Asked(channel: nat, value: bv32, s: string, n: nat)
    requires n <= |s| == CHANNELS
  {
    && (forall j :: 0 <= j < CHANNELS ==> (HasBit(channel, j) <==> j < n && s[j] != '-'))
    && (forall j :: 0 <= j < CHANNELS ==> Field(value, j) == if j < n && s[j] != '-' then LetterAsk(s[j]) else NOTHING)
  }

  lemma NothingAsked(s: string)
    requires |s| == CHANNELS
    ensures Asked(0, 0, s, 0)
  {
    hide HasBit, Field;
    forall j | 0 <= j < CHANNELS
      ensures !HasBit(0, j) && Field(0, j) == NOTHING
    {
      NoBits(j);
      NoFields(j);
    }
  }

  lemma OneMoreAsked(m: nat, v: bv32, m': nat, v': bv32, s: string, i: nat)
    requires i < |s| == CHANNELS && Asked(m, v, s, i)
    requires s[i] == '-' ==> m' == m && v' == v
    requires s[i] != '-' ==> m' == WithBit(m, i)
    requires s[i] != '-' ==>
               forall j :: 0 <= j < CHANNELS ==>
                 Field(v', j) == if j == i then Either(Field(v, j), LetterAsk(s[i])) else Field(v, j)
    ensures Asked(m', v', s, i + 1)
  {
    hide HasBit, WithBit, Field, LetterAsk;
    forall j | 0 <= j < CHANNELS
      ensures HasBit(WithBit(m, i), j) <==> j == i || HasBit(m, j)
    {
      WithBitHas(m, i, j);
    }
  }

  /** A channel's nibble and GPIO output change as its letter says. */
  ghost predicate Follows(c: char, nibble: bv32, nibble': bv32, gpio: bool, gpio': bool) {
    if c == '-' then nibble' == nibble && gpio' == gpio
    else
      && Manual(c).Some? && ModeOf(nibble') == Manual(c).value.mode
      && gpio' == match Manual(c).value.level case Some(level) => level case None => gpio
  }

  lemma LetterFollowed(c: char, i: nat, nibble: bv32, nibble': bv32, gpio: bool, gpio': bool)
    requires Accepted(c, i)
    requires c == '-' ==> nibble' == nibble && gpio' == gpio
    requires c != '-' ==> InMode(LetterAsk(c), nibble', gpio, gpio')
    ensures Follows(c, nibble, nibble', gpio, gpio')
  {
  }
}
