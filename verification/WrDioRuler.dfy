/** The ruler (tools/wr-dio-ruler.c): answer an event with pulses at fixed delays
from it, on local channels and, over the network, on remote ones. */
module WrDioRuler {
  import opened Common
  import opened Timespec
  import opened WrNicDio
  import opened DioRuns

  datatype Action = Action(remote: bool, channel: nat, delay: Timespec)

  const MILLISECOND := Timespec(0, 1_000_000)
  const ZERO := Timespec(0, 0)

  /** The pulse command built for an action; the carry leaves 10^9 ns as it is. */
  function Command(ts: Timespec, a: Action): Cmd {
    var sec, nsec := ts.sec + a.delay.sec, ts.nsec + a.delay.nsec;
    var start := if nsec > GIGA then Timespec(sec + 1, nsec - GIGA) else Timespec(sec, nsec);
    Cmd(a.channel, 0, Flags(false, false, false, false, false), [start, MILLISECOND] + seq(N_STAMP - 2, _ => ZERO))
  }

  lemma CommandShape(ts: Timespec, a: Action)
    ensures |Command(ts, a).t| == N_STAMP && Command(ts, a).value == 0 && Command(ts, a).channel == a.channel
    ensures Command(ts, a).t[1] == MILLISECOND && !Command(ts, a).flags.now
  {
  }

  /** Executing the command programs the tick before event + delay, whatever the
      carry made of the nanoseconds. */
  lemma ActionTrigger(d: DevView, ts: Timespec, a: Action, now: nat)
    requires d.Ok() && a.channel < CHANNELS
    ensures PulseStep(d, Command(ts, a), now)
         == d.(armed := d.armed + [TriggerAt(a.channel, Ns(ts) + Ns(a.delay))])
  {
    hide PulseAt;
    PulseAtNs(a.channel, Command(ts, a).t[0]);
    assert Ns(Command(ts, a).t[0]) == Ns(ts) + Ns(a.delay);
    assert d.chans[a.channel := d.chans[a.channel]] == d.chans;
  }

  /** The triggers of the local actions among the first `n`. */
  function Local(ts: Timespec, actions: seq<Action>, n: nat): seq<Trigger>
    requires n <= |actions|
  {
    if n == 0 then []
    else Local(ts, actions, n - 1)
         + if actions[n - 1].remote then [] else [TriggerAt(actions[n - 1].channel, Ns(ts) + Ns(actions[n - 1].delay))]
  }

  /** The commands sent for the remote ones. */
  function Remote(ts: Timespec, actions: seq<Action>, n: nat): seq<Cmd>
    requires n <= |actions|
  {
    if n == 0 then []
    else Remote(ts, actions, n - 1) + if actions[n - 1].remote then [Command(ts, actions[n - 1])] else []
  }

  lemma NothingYet(ts: Timespec, actions: seq<Action>)
    ensures Local(ts, actions, 0) == [] && Remote(ts, actions, 0) == []
  {
  }

  lemma NextAction(ts: Timespec, actions: seq<Action>, n: nat)
    requires n < |actions|
    ensures var a := actions[n];
            && Local(ts, actions, n + 1) == (if a.remote then Local(ts, actions, n)
                                             else Local(ts, actions, n) + [TriggerAt(a.channel, Ns(ts) + Ns(a.delay))])
            && Remote(ts, actions, n + 1) == (if a.remote then Remote(ts, actions, n) + [Command(ts, a)]
                                              else Remote(ts, actions, n))
  {
  }

  /** Every action is carried out once, here or there, each side in the order of the list. */
  lemma {:induction false} EachActionOnce(ts: Timespec, actions: seq<Action>, n: nat, k: nat)
    requires k < n <= |actions|
    ensures |Local(ts, actions, n)| + |Remote(ts, actions, n)| == n
    ensures var a, here, there := actions[k], |Local(ts, actions, k)|, |Remote(ts, actions, k)|;
            && here + there == k
            && if a.remote then there < |Remote(ts, actions, n)| && Remote(ts, actions, n)[there] == Command(ts, a)
               else here < |Local(ts, actions, n)|
                    && Local(ts, actions, n)[here] == TriggerAt(a.channel, Ns(ts) + Ns(a.delay))
  {
    hide Command, TriggerAt, Ns;
    if k < n - 1 {
      EachActionOnce(ts, actions, n - 1, k);
    } else if k > 0 {
      EachActionOnce(ts, actions, k, 0);
    }
  }

  /** Is channel `i` used by a local action among the first `n`? */
  predicate Used(actions: seq<Action>, n: nat, i: nat)
    requires n <= |actions|
  {
    exists k :: 0 <= k < n && !actions[k].remote && actions[k].channel == i
  }

  /** The used channels have been handed to the DIO core, with pulses of a millisecond;
      the others are as they were. */
  ghost predicate Prepared(actions: seq<Action>, n: nat, iomode: bv32, pulse: seq<int>, iomode': bv32, pulse': seq<int>)
    requires n <= |actions|
  {
    && |pulse| == |pulse'| == CHANNELS && Upper(iomode') == Upper(iomode)
    && forall i :: 0 <= i < CHANNELS ==>
         && Nibble(iomode', i) == (if Used(actions, n, i) then Dioed(Nibble(iomode, i)) else Nibble(iomode, i))
         && pulse'[i] == if Used(actions, n, i) then MILLISECOND.nsec / 8 else pulse[i]
  }

  lemma NextPrepared(actions: seq<Action>, n: nat, iomode: bv32, pulse: seq<int>, iomode': bv32, pulse': seq<int>)
    requires n < |actions| && Prepared(actions, n, iomode, pulse, iomode', pulse')
    ensures actions[n].remote ==> Prepared(actions, n + 1, iomode, pulse, iomode', pulse')
    ensures !actions[n].remote && actions[n].channel < CHANNELS ==>
              Prepared(actions, n + 1, iomode, pulse, WithDio(iomode', actions[n].channel),
                       pulse'[actions[n].channel := MILLISECOND.nsec / 8])
  {
    hide Nibble, Upper, WithDio, Dioed, ModeOf, Used;
    var c := actions[n].channel;
    forall i | 0 <= i < CHANNELS
      ensures Used(actions, n + 1, i) <==> Used(actions, n, i) || (!actions[n].remote && c == i)
    {
      UsedNext(actions, n, i);
    }
    if !actions[n].remote && c < CHANNELS {
      forall i | 0 <= i < CHANNELS
        ensures Nibble(WithDio(iomode', c), i) == if i == c then Dioed(Nibble(iomode', i)) else Nibble(iomode', i)
      {
        PulseMode(iomode', c, i);
      }
      PulseMode(iomode', c, c);
      DioedTwice(Nibble(iomode, c));
    }
  }

  lemma UsedNext(actions: seq<Action>, n: nat, i: nat)
    requires n < |actions|
    ensures Used(actions, n + 1, i) <==> Used(actions, n, i) || (!actions[n].remote && actions[n].channel == i)
  {
    if !actions[n].remote && actions[n].channel == i {
      assert Used(actions, n + 1, i);
    }
  }

  lemma NothingPrepared(actions: seq<Action>, iomode: bv32, pulse: seq<int>)
    requires |pulse| == CHANNELS
    ensures Prepared(actions, 0, iomode, pulse, iomode, pulse)
  {
  }

  method Build(ts: Timespec, a: Action) returns (cmd: Cmd)
    ensures cmd == Command(ts, a)
  {
    var sec, nsec := ts.sec + a.delay.sec, ts.nsec + a.delay.nsec;
    if nsec > GIGA {
      sec, nsec := sec + 1, nsec - GIGA;
    }
    cmd := Cmd(a.channel, 0, Flags(false, false, false, false, false),
               [Timespec(sec, nsec), MILLISECOND] + seq(N_STAMP - 2, _ => ZERO));
  }

  /** The ioctl of a local action. */
  method Act(dio: Dio, ghost ts: Timespec, ghost a: Action, cmd: Cmd)
    requires dio.Valid() && a.channel < CHANNELS && cmd == Command(ts, a)
    modifies dio.hw, dio.ch
    ensures dio.Valid()
    ensures dio.View()
         == old(dio.View()).(armed := old(dio.View()).armed + [TriggerAt(a.channel, Ns(ts) + Ns(a.delay))])
    ensures dio.hw.iomode == WithDio(old(dio.hw.iomode), a.channel)
    ensures dio.hw.pulse == old(dio.hw.pulse)[a.channel := MILLISECOND.nsec / 8]
    ensures dio.hw.gpio == old(dio.hw.gpio) && dio.hw.fired == old(dio.hw.fired)
  {
    hide Command, PulseStep, TriggerAt, Ns, WithDio;
    CommandShape(ts, a);
    ghost var e := dio.View();
    var _, now, _ := dio.CmdPulse(cmd, [0, 0, 0, 0]);
    ActionTrigger(e, ts, a, now);
  }

  /** ruler_run_actions; `linkUp` tells whether frames can be sent.  Everything up
      to the action that fails is done, nothing after it. */
  method RunActions(dio: Dio, ts: Timespec, actions: seq<Action>, linkUp: bool)
    returns (ret: int, sent: seq<Cmd>, ghost n: nat)
    requires dio.Valid() && forall a <- actions :: a.channel < CHANNELS
    modifies dio.hw, dio.ch
    ensures dio.Valid() && n <= |actions|
    ensures ret == if n == |actions| then 0 else -1
    ensures n < |actions| <==> !linkUp && exists a <- actions :: a.remote
    ensures n < |actions| ==> actions[n].remote && forall j :: 0 <= j < n ==> !actions[j].remote
    ensures dio.View() == old(dio.View()).(armed := old(dio.View()).armed + Local(ts, actions, n))
    ensures sent == Remote(ts, actions, n)
    ensures Prepared(actions, n, old(dio.hw.iomode), old(dio.hw.pulse), dio.hw.iomode, dio.hw.pulse)
    ensures dio.hw.gpio == old(dio.hw.gpio) && dio.hw.fired == old(dio.hw.fired)
  {
    hide Command, PulseStep, TriggerAt, Ns, WithDio, TruncDiv, Local, Remote, Channel.View, Channel.Queue, Prepared;
    NothingPrepared(actions, dio.hw.iomode, dio.hw.pulse);
    sent := [];
    ghost var d := dio.View();
    var i := 0;
    n := 0;
    NothingYet(ts, actions);
    assert d.armed + [] == d.armed;
    while i < |actions|
      invariant 0 <= i == n <= |actions| && dio.Valid()
      invariant !linkUp ==> forall j :: 0 <= j < i ==> !actions[j].remote
      invariant dio.View() == d.(armed := d.armed + Local(ts, actions, i))
      invariant sent == Remote(ts, actions, i)
      invariant Prepared(actions, i, old(dio.hw.iomode), old(dio.hw.pulse), dio.hw.iomode, dio.hw.pulse)
      invariant dio.hw.gpio == old(dio.hw.gpio) && dio.hw.fired == old(dio.hw.fired)
    {
      var a := actions[i];
      var cmd := Build(ts, a);
      NextAction(ts, actions, i);
      NextPrepared(actions, i, old(dio.hw.iomode), old(dio.hw.pulse), dio.hw.iomode, dio.hw.pulse);
      if a.remote {
        if !linkUp {
          return -1, sent, i;
        }
        sent := sent + [cmd];
      } else {
        Act(dio, ts, a, cmd);
        Assoc(d.armed, Local(ts, actions, i), [TriggerAt(a.channel, Ns(ts) + Ns(a.delay))]);
      }
      i := i + 1;
      n := i;
    }
    ret := 0;
  }

  /** From an edge to the pulse it causes: for a delay of whole ticks, the trigger
      is the event's raw tick, minus the five ticks of the input and the one of the
      output, plus the delay. */
  lemma EdgeToPulse(tag: Tag, a: Action)
    requires Ns(a.delay) % 8 == 0
    ensures var tick := (tag.hi * TWO32 + tag.lo) * (GIGA / 8) + tag.cycle - 6 + Ns(a.delay) / 8;
            var x := TriggerAt(a.channel, Ns(StampOf(tag)) + Ns(a.delay));
            && x.cycle == tick % (GIGA / 8)
            && x.sec == tick / (GIGA / 8) % TWO40
  {
  }
}
