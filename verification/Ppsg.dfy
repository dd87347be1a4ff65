/** The White Rabbit clock and the two ways in which the driver reads it
(kernel/wr_nic/pps.c, and the relative pulses of kernel/wr-nic-dio.c).

Time is an unbounded count of 125 MHz ticks.  The clock shows it in three
registers, a 28-bit tick counter and 32 + 8 bits of seconds, that keep moving
while they are read one after the other.  Both readers are given the instants at
which their register accesses happen to take place. */
module Ppsg {
  import opened Common

  const REFCLK_FREQ := 125_000_000

  function Second(t: nat): nat { t / REFCLK_FREQ }

  function Tick(t: nat): nat { t % REFCLK_FREQ }

  /** CNTR_UTCLO */
  function UtcLo(t: nat): nat { Second(t) % TWO32 }

  /** CNTR_UTCHI */
  function UtcHi(t: nat): nat { Second(t) / TWO32 % 256 }

  ghost predicate Ordered(t: seq<nat>) { |t| == 4 && t[0] <= t[1] <= t[2] <= t[3] }

  lemma TickWithin(s: nat, k: nat)
    requires k < REFCLK_FREQ
    ensures Second(s * REFCLK_FREQ + k) == s && Tick(s * REFCLK_FREQ + k) == k
  {
  }

  lemma Split(t: nat)
    ensures t == Second(t) * REFCLK_FREQ + Tick(t) && Tick(t) < REFCLK_FREQ
  {
  }

  lemma InOrder(a: nat, b: nat)
    requires a <= b
    ensures Second(a) <= Second(b)
  {
  }

  lemma SecondStarts(t: nat, s: nat)
    ensures Second(t) < s <==> t < s * REFCLK_FREQ
  {
  }

  /** If the second has moved, the last tick read and the second read before it were
      on the clock together, a while ago. */
  lemma Rolled(t: seq<nat>)
    requires Ordered(t) && Second(t[0]) < Second(t[2])
    ensures var when := Second(t[2]) * REFCLK_FREQ + Tick(t[3]);
            t[0] <= when <= t[3] && Second(when) == Second(t[2]) && Tick(when) == Tick(t[3])
  {
    hide Second, Tick;
    Split(t[3]);
    InOrder(t[2], t[3]);
    SecondStarts(t[0], Second(t[2]));
    TickWithin(Second(t[2]), Tick(t[3]));
  }

  lemma SameSecond(a: nat, b: nat)
    requires a <= b && b - a < TWO32 && a % TWO32 == b % TWO32
    ensures a == b
  {
  }

  /** wrn_ppsg_read_time.  However far the clock moves between the accesses, short
      of 2^32 seconds, the pair returned was on the clock at one instant of the
      read. */
  method ReadTime(t: seq<nat>) returns (counter: nat, utc: nat, ghost when: nat)
    requires Ordered(t) && Second(t[2]) - Second(t[0]) < TWO32
    ensures exists w :: t[0] <= w <= t[3] && counter == Tick(w) && utc == UtcLo(w)
    ensures t[0] <= when <= t[3] && counter == Tick(when) && utc == UtcLo(when)
  {
    hide Second, Tick;
    InOrder(t[0], t[2]);
    var utc1 := UtcLo(t[0]);
    counter := Tick(t[1]);
    var utc2 := UtcLo(t[2]);
    when := t[1];
    if utc2 != utc1 {
      counter := Tick(t[3]);
      Rolled(t);
      when := Second(t[2]) * REFCLK_FREQ + Tick(t[3]);
    } else {
      SameSecond(Second(t[0]), Second(t[2]));
      InOrder(t[0], t[1]);
      InOrder(t[1], t[2]);
    }
    utc := utc2;
  }

  lemma Halves(s: nat)
    ensures s / TWO32 % 256 * TWO32 + s % TWO32 == s % TWO40
  {
    var q := s / TWO32;
    assert s == q / 256 * TWO40 + (q % 256 * TWO32 + s % TWO32);
  }

  /** The high half has moved: the new one and the low half read after it belong to a
      second that began during the read. */
  lemma EpochRolled(t: seq<nat>)
    requires Ordered(t) && UtcHi(t[0]) != UtcHi(t[2])
    ensures var s := Second(t[2]) / TWO32 * TWO32 + UtcLo(t[3]);
            && t[0] <= s * REFCLK_FREQ <= t[3] && Second(s * REFCLK_FREQ) == s
            && UtcLo(t[3]) + UtcHi(t[2]) * TWO32 == s % TWO40
  {
    hide Second, Tick;
    var s := Second(t[2]) / TWO32 * TWO32 + UtcLo(t[3]);
    InOrder(t[0], t[2]);
    InOrder(t[2], t[3]);
    Epochs(Second(t[0]), Second(t[2]), Second(t[3]));
    SecondStarts(t[0], s);
    SecondStarts(t[3], s);
    TickWithin(s, 0);
    Halves(s);
  }

  lemma Epochs(a: nat, b: nat, c: nat)
    requires a <= b <= c && a / TWO32 % 256 != b / TWO32 % 256
    ensures a < b / TWO32 * TWO32 + c % TWO32 <= c
  {
  }

  /** It has not: neither has it in between. */
  lemma SameEpoch(t: seq<nat>)
    requires Ordered(t) && UtcHi(t[0]) == UtcHi(t[2]) && Second(t[2]) - Second(t[0]) < 255 * TWO32
    ensures UtcLo(t[1]) + UtcHi(t[2]) * TWO32 == Second(t[1]) % TWO40
  {
    hide Second;
    InOrder(t[0], t[1]);
    InOrder(t[1], t[2]);
    Squeezed(Second(t[0]), Second(t[1]), Second(t[2]));
    Halves(Second(t[1]));
  }

  lemma Squeezed(a: nat, b: nat, c: nat)
    requires a <= b <= c && c - a < 255 * TWO32 && a / TWO32 % 256 == c / TWO32 % 256
    ensures b / TWO32 % 256 == c / TWO32 % 256
  {
  }

  /** The 40-bit second that a relative pulse is added to: high, low, high, and
      low again if the high part moved.  The bound is what the 8-bit high half can
      tell apart. */
  method ReadSecond(t: seq<nat>) returns (now: nat, ghost when: nat)
    requires Ordered(t) && Second(t[2]) - Second(t[0]) < 255 * TWO32
    ensures exists w :: t[0] <= w <= t[3] && now == Second(w) % TWO40
    ensures t[0] <= when <= t[3] && now == Second(when) % TWO40
  {
    hide Second, UtcLo, UtcHi;
    var h1 := UtcHi(t[0]);
    var l := UtcLo(t[1]);
    var h2 := UtcHi(t[2]);
    when := t[1];
    if h2 != h1 {
      l := UtcLo(t[3]);
      EpochRolled(t);
      when := (Second(t[2]) / TWO32 * TWO32 + l) * REFCLK_FREQ;
    } else {
      SameEpoch(t);
    }
    now := l + h2 * TWO32;
  }
}
