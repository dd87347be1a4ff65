/** Transmission (kernel/wr_nic/nic-core.c and timestamp.c): frame ids, and matching
a hardware timestamp with the frame it belongs to. */
module NicTx {
  import opened Common
  import opened Timespec
  import opened Ppsg
  import opened NicMem
  import opened NicRx

  const MTU := 1540
  const ENOMEM := 12
  const EMSGSIZE := 90
  const IDS := 65535
  const TWO16 := 0x1_0000

  /** The id of the n-th transmission attempt, counting from 0. */
  function FrameId(n: nat): nat { n % IDS + 1 }

  /** Ids are 16-bit words other than 0, and two attempts share one exactly if the
      distance between them is a multiple of 65535. */
  lemma FrameIdsCollide(a: nat, b: nat)
    requires a <= b
    ensures 0 < FrameId(a) < TWO16
    ensures FrameId(a) == FrameId(b) <==> (b - a) % IDS == 0
  {
  }

  /** The 32-bit counter after n attempts: it also steps over the multiples of 2^16. */
  ghost predicate Counts(counter: nat, n: nat) {
    counter < TWO32 && counter % TWO16 == if n % IDS == 0 then 0 else n % IDS + 1
  }

  lemma CounterStep(counter: nat, n: nat)
    requires Counts(counter, n)
    ensures var id := counter % TWO16;
            var next := (counter + 1) % TWO32;
            if id == 0 then next % TWO16 == FrameId(n) && Counts((next + 1) % TWO32, n + 1)
            else id == FrameId(n) && Counts(next, n + 1)
  {
  }

  // ---------------------------------------------------------- descriptors

  /** The registers of a transmit descriptor. */
  datatype TxDesc = TxDesc(ready: bool, pad: bool, stamp: bool, id: nat, offset: nat, len: nat, port: nat)

  /** struct wrn_desc_pending: a socket buffer, and the id its frame was sent with. */
  datatype Slot = Slot(skb: Option<nat>, frameId: nat)

  /** Every live slot carries the id of the attempt that filled it. */
  ghost predicate Booked(slots: seq<Slot>, filledBy: seq<nat>, attempts: nat) {
    && |slots| == |filledBy| == NR_DESC
    && (forall i :: 0 <= i < NR_DESC && slots[i].skb.Some? ==>
          filledBy[i] < attempts && slots[i].frameId == FrameId(filledBy[i]))
    && (forall i, j :: 0 <= i < j < NR_DESC && slots[i].skb.Some? && slots[j].skb.Some? ==> filledBy[i] != filledBy[j])
  }

  /** All frames that still wait for a timestamp are among the last 65535. */
  ghost predicate Recent(slots: seq<Slot>, filledBy: seq<nat>, attempts: nat)
    requires |slots| == |filledBy| == NR_DESC
  {
    forall i :: 0 <= i < NR_DESC && slots[i].skb.Some? ==> attempts <= filledBy[i] + IDS
  }

  /** Descriptors are used in turn: the k-th accepted attempt filled slot k modulo 8, and a
      live slot still belongs to the last one that did. */
  ghost predicate InTurn(slots: seq<Slot>, filledBy: seq<nat>, accepted: seq<nat>, head: nat, attempts: nat) {
    && |slots| == |filledBy| == NR_DESC && head == |accepted| % NR_DESC
    && (forall k, m :: 0 <= k < m < |accepted| ==> accepted[k] < accepted[m])
    && (forall k :: 0 <= k < |accepted| ==> accepted[k] < attempts)
    && (forall k :: 0 <= k < |accepted| && |accepted| - NR_DESC <= k ==> filledBy[k % NR_DESC] == accepted[k])
    && (forall i :: 0 <= i < NR_DESC && slots[i].skb.Some? ==> i < |accepted|)
  }

  /** The oldest attempt that a live slot can belong to. */
  function Eighth(accepted: seq<nat>, attempts: nat): nat {
    if |accepted| == 0 then attempts else if |accepted| < NR_DESC then accepted[0] else accepted[|accepted| - NR_DESC]
  }

  /** So it is enough to bound the attempts that were refused: the last eight accepted ones
      have to be among the last 65535. */
  lemma RecentIfFewRefused(slots: seq<Slot>, filledBy: seq<nat>, accepted: seq<nat>, head: nat, attempts: nat)
    requires InTurn(slots, filledBy, accepted, head, attempts) && attempts <= Eighth(accepted, attempts) + IDS
    ensures Recent(slots, filledBy, attempts)
  {
    forall i | 0 <= i < NR_DESC && slots[i].skb.Some?
      ensures attempts <= filledBy[i] + IDS
    {
      var k := LastOf(|accepted|, i);
      assert filledBy[k % NR_DESC] == accepted[k];
    }
  }

  lemma StillInTurn(slots: seq<Slot>, filledBy: seq<nat>, accepted: seq<nat>, head: nat, attempts: nat, skb: nat)
    requires InTurn(slots, filledBy, accepted, head, attempts)
    ensures |slots| == |filledBy| == NR_DESC && head < NR_DESC
    ensures InTurn(slots, filledBy, accepted, head, attempts + 1)
    ensures InTurn(slots[head := Slot(Some(skb), FrameId(attempts))], filledBy[head := attempts], accepted + [attempts],
                   (head + 1) % NR_DESC, attempts + 1)
  {
    hide FrameId;
    var all := accepted + [attempts];
    forall k | 0 <= k < |all| && |all| - NR_DESC <= k
      ensures filledBy[head := attempts][k % NR_DESC] == all[k]
    {
      if k < |accepted| {
        Apart(k, |accepted|);
      }
    }
  }

  lemma Apart(k: nat, n: nat)
    requires k < n < k + NR_DESC
    ensures k % NR_DESC != n % NR_DESC
  {
  }

  /** The last of `n` numbers that leaves remainder `i`. */
  lemma LastOf(n: nat, i: nat) returns (k: nat)
    requires i < NR_DESC && i < n
    ensures k < n && n - NR_DESC <= k && k % NR_DESC == i
  {
    var r := (n - 1) % NR_DESC;
    k := if i <= r then n - 1 - (r - i) else n - 1 - r - NR_DESC + i;
    var q := (n - 1) / NR_DESC;
    assert n - 1 == NR_DESC * q + r;
    assert k == if i <= r then NR_DESC * q + i else NR_DESC * (q - 1) + i;
    Remainder(k, if i <= r then q else q - 1, i);
  }

  lemma Remainder(k: nat, q: int, i: nat)
    requires i < NR_DESC && k == NR_DESC * q + i
    ensures k % NR_DESC == i
  {
  }

  predicate Matches(slot: Slot, id: nat) { slot.skb.Some? && slot.frameId == id }

  /** Then a timestamp can only match the frame that was sent with its id. */
  lemma MatchIsUnique(slots: seq<Slot>, filledBy: seq<nat>, attempts: nat, i: nat, j: nat, id: nat)
    requires Booked(slots, filledBy, attempts) && Recent(slots, filledBy, attempts)
    requires i < NR_DESC && j < NR_DESC && Matches(slots[i], id) && Matches(slots[j], id)
    ensures i == j
  {
  }

  class Transmitter {
    const ram: array<Word>
    var txd: seq<TxDesc>
    var slots: seq<Slot>
    var id: nat
    var nextTxHead: nat
    var txPackets: nat
    var txErrors: nat
    ghost var attempts: nat
    ghost var filledBy: seq<nat>
    ghost var accepted: seq<nat>      // the attempts that got a descriptor
    ghost var frames: seq<seq<Byte>>  // what was last put into the window of each descriptor

    constructor (ram: array<Word>)
      requires ram.Length == MEM_WORDS
      ensures Valid() && this.ram == ram && attempts == 0
      ensures forall i :: 0 <= i < NR_DESC ==> !txd[i].ready && slots[i].skb == None
    {
      this.ram := ram;
      txd := seq(NR_DESC, _ => TxDesc(false, false, false, 0, 0, 0, 0));
      slots := seq(NR_DESC, _ => Slot(None, 0));
      filledBy, frames, accepted := seq(NR_DESC, _ => 0), seq(NR_DESC, _ => []), [];
      id, nextTxHead, txPackets, txErrors, attempts := 0, 0, 0, 0, 0;
    }

    /** Live slots carry the ids of their attempts, and a descriptor that the hardware has
        still to send has its frame in its window. */
    ghost predicate Sound()
      reads this, ram
    {
      && ram.Length == MEM_WORDS && nextTxHead < NR_DESC
      && Counts(id, attempts) && Booked(slots, filledBy, attempts) && Loaded(txd, frames, ram[..])
    }

    /** ... and, between two calls, descriptors have been used in turn. */
    ghost predicate Valid()
      reads this, ram
    {
      Sound() && InTurn(slots, filledBy, accepted, nextTxHead, attempts)
    }

    /** The hardware has sent the frame of a descriptor and gives it back. */
    method HwSent(i: nat)
      requires Valid() && i < NR_DESC
      modifies this`txd
      ensures Valid() && txd == old(txd)[i := old(txd)[i].(ready := false)]
    {
      hide Sent;
      txd := txd[i := txd[i].(ready := false)];
    }

    /** __wrn_alloc_tx_desc */
    method AllocTxDesc() returns (ret: int)
      requires Sound()
      modifies this`nextTxHead
      ensures Sound()
      ensures ret == if txd[old(nextTxHead)].ready then -ENOMEM else old(nextTxHead)
      ensures nextTxHead == if ret < 0 then old(nextTxHead) else (old(nextTxHead) + 1) % NR_DESC
    {
      ret := nextTxHead;
      if txd[ret].ready {
        return -ENOMEM;
      }
      nextTxHead := (ret + 1) % NR_DESC;
    }

    /** The frame id of an attempt: the counter moves even if there is no descriptor. */
    method NextId() returns (frame: nat)
      requires Sound()
      modifies this`id, this`attempts
      ensures Sound() && attempts == old(attempts) + 1
      ensures frame % TWO16 == FrameId(old(attempts))
    {
      hide FrameId, Counts;
      CounterStep(id, attempts);
      frame := id % TWO16;
      id := (id + 1) % TWO32;
      if frame == 0 {
        frame := id;  // more than 16 bits, perhaps
        id := (id + 1) % TWO32;
      }
      attempts := attempts + 1;
      assert frame < TWO16 ==> frame % TWO16 == frame;
    }

    /** The copy made by __wrn_tx_desc: no other window is touched. */
    method PutFrame(desc: nat, data: array<Byte>, from: nat, len: nat)
      requires ram.Length == MEM_WORDS && desc < NR_DESC && len <= MTU
      requires DDATA_OFFSET <= from && from - DDATA_OFFSET + 4 * Words(len) <= data.Length
      modifies ram
      ensures Sent(ram[..], desc, data[from..from + len])
      ensures SameOutside(old(ram[..]), ram[..], desc)
    {
      hide Unpacked, Packed, Words;
      CopyFitsWindow(len);
      WindowsDisjoint(Tx, desc, Tx, desc);
      var to := DescOffset(Tx, desc) / 4;
      CopyOut(ram, to, data, from, len);
      OutAndIn(data[..], from, len, ram[to..to + Words(len)]);
      SentNow(ram[..], desc, data[..], from, len);
    }

    /** wrn_start_xmit for a frame at `data[from..from + len]`. */
    method StartXmit(skb: nat, data: array<Byte>, from: nat, len: nat, wantStamp: bool) returns (ret: int)
      requires Valid()
      requires DDATA_OFFSET <= from && from - DDATA_OFFSET + 4 * Words(len) <= data.Length
      modifies this, ram
      ensures Valid()
      // refused: only the error count or the id counter moves
      ensures len > MTU ==> ret == -EMSGSIZE && attempts == old(attempts) && id == old(id)
      ensures txErrors == if len > MTU then old(txErrors) + 1 else old(txErrors)
      ensures txPackets == if ret == 0 then old(txPackets) + 1 else old(txPackets)
      ensures len <= MTU ==> attempts == old(attempts) + 1
      ensures len <= MTU && old(txd[nextTxHead]).ready ==> ret == -ENOMEM
      ensures ret != 0 ==>
                && ram[..] == old(ram[..]) && slots == old(slots) && txd == old(txd) && frames == old(frames)
                && nextTxHead == old(nextTxHead) && filledBy == old(filledBy) && accepted == old(accepted)
      // accepted
      ensures len <= MTU && !old(txd[nextTxHead]).ready ==>
                var i := old(nextTxHead);
                && ret == 0 && nextTxHead == (i + 1) % NR_DESC
                && slots == old(slots)[i := Slot(Some(skb), FrameId(old(attempts)))]
                && filledBy == old(filledBy)[i := old(attempts)] && accepted == old(accepted) + [old(attempts)]
                && frames == old(frames)[i := data[from..from + len]]
                && txd == old(txd)[i := TxDesc(true, len < 60, wantStamp, FrameId(old(attempts)),
                                              DescOffset(Tx, i), len, 0)]
                && Sent(ram[..], i, data[from..from + len]) && SameOutside(old(ram[..]), ram[..], i)
    {
      hide FrameId, Counts, Booked, Sent, SameOutside, Loaded, Words, DescOffset, InTurn;
      LoadedSize(txd, frames, ram[..]);
      CopyFitsWindow(len);
      if len > MTU {
        txErrors := txErrors + 1;
        return -EMSGSIZE;
      }
      ghost var n, was, head := attempts, ram[..], nextTxHead;
      StillInTurn(slots, filledBy, accepted, head, n, skb);
      var desc := AllocTxDesc();
      var frame := NextId();
      if desc < 0 {
        return desc;
      }
      StillBooked(slots, filledBy, n, desc, skb);
      slots := slots[desc := Slot(Some(skb), frame % TWO16)];
      PutFrame(desc, data, from, len);
      var d := TxDesc(true, len < 60, wantStamp, frame % TWO16, DescOffset(Tx, desc), len, 0);
      StillLoaded(txd, frames, was, desc, d, data[from..from + len], ram[..]);
      txd := txd[desc := d];
      filledBy, frames := filledBy[desc := n], frames[desc := data[from..from + len]];
      accepted := accepted + [n];
      txPackets := txPackets + 1;
      ret := 0;
    }

    /** record_tstamp: find the frame with the id that came with a timestamp, hand the
        time over unless the hardware disowns it, and let the frame go. */
    method RecordTstamp(tsval: nat, fid: nat, incorrect: bool, t: seq<nat>)
      returns (found: Option<nat>, stamp: Option<Timespec>, ghost at: nat, ghost when: nat)
      requires Valid() && fid < TWO16
      requires Ordered(t) && Second(t[2]) - Second(t[0]) < TWO32
      modifies this`slots
      ensures Valid()
      ensures found == None <==> forall i :: 0 <= i < NR_DESC ==> !Matches(old(slots)[i], fid)
      ensures found == None ==> slots == old(slots) && stamp == None
      ensures found != None ==>
                && at < NR_DESC && Matches(old(slots)[at], fid) && found == old(slots)[at].skb
                && slots == old(slots)[at := old(slots)[at].(skb := None)]
                && t[0] <= when <= t[3]
                && stamp == (if incorrect then None else Some(FrameTime(tsval % 0x1000_0000, when)))
      // a frame that was sent less than a second before the end of the clock read gets its own time
      ensures forall event :: found != None && !incorrect && Fresh(tsval % 0x1000_0000, event, t) ==>
                stamp == Some(Timespec(Second(event) % TWO31, 8 * Tick(event)))
      // the frame is the one that was sent with this id
      ensures found != None && Recent(old(slots), filledBy, attempts) ==>
                forall i :: 0 <= i < NR_DESC && Matches(old(slots)[i], fid) ==> i == at
      // which is the case unless tens of thousands of attempts were refused
      ensures attempts <= Eighth(accepted, attempts) + IDS ==> Recent(old(slots), filledBy, attempts)
    {
      hide FrameId, Counts, Second, Tick, Loaded, Fresh, Eighth;
      if attempts <= Eighth(accepted, attempts) + IDS {
        RecentIfFewRefused(slots, filledBy, accepted, nextTxHead, attempts);
      }
      var i := 0;
      found, stamp, at, when := None, None, 0, t[0];
      while i < NR_DESC && !Matches(slots[i], fid)
        invariant i <= NR_DESC && forall j :: 0 <= j < i ==> !Matches(slots[j], fid)
      {
        i := i + 1;
      }
      if i == NR_DESC {
        return;  // not one of ours
      }
      at := i;
      forall j | 0 <= j < NR_DESC && Recent(slots, filledBy, attempts) && Matches(slots[j], fid)
        ensures j == at
      {
        MatchIsUnique(slots, filledBy, attempts, j, at, fid);
      }
      found := slots[i].skb;
      var counter, utc;
      counter, utc, when := ReadTime(t);
      var ticks := tsval % 0x1000_0000;
      if counter < ticks {
        utc := (utc - 1) % TWO32;
      }
      FreshTimeIsExact(ticks, t, when);
      if !incorrect {
        stamp := Some(Timespec(utc % TWO31, ticks * NSEC_PER_TICK));
      }
      slots := slots[i := slots[i].(skb := None)];
    }
  }

  /** The window of a transmit descriptor holds a frame. */
  ghost predicate Sent(ram: seq<Word>, nr: nat, payload: seq<Byte>)
    requires |ram| == MEM_WORDS && nr < NR_DESC
  {
    var from := DescOffset(Tx, nr) / 4;
    && |payload| <= MTU
    && Unpacked(ram[from..from + Words(|payload|)])[DDATA_OFFSET..DDATA_OFFSET + |payload|] == payload
  }

  /** Memory has only changed in the window of one transmit descriptor. */
  ghost predicate SameOutside(ram: seq<Word>, ram': seq<Word>, nr: nat)
    requires |ram| == |ram'| == MEM_WORDS && nr < NR_DESC
  {
    forall k :: 0 <= k < MEM_WORDS && !(DescOffset(Tx, nr) <= 4 * k < DescOffset(Tx, nr) + WINDOW) ==> ram'[k] == ram[k]
  }

  /** Every descriptor that is READY has its frame in its window. */
  ghost predicate Loaded(txd: seq<TxDesc>, frames: seq<seq<Byte>>, ram: seq<Word>)
    requires |ram| == MEM_WORDS
  {
    && |txd| == |frames| == NR_DESC
    && forall i :: 0 <= i < NR_DESC && txd[i].ready ==>
         txd[i].offset == DescOffset(Tx, i) && txd[i].len == |frames[i]| && Sent(ram, i, frames[i])
  }

  lemma LoadedSize(txd: seq<TxDesc>, frames: seq<seq<Byte>>, ram: seq<Word>)
    requires |ram| == MEM_WORDS && Loaded(txd, frames, ram)
    ensures |txd| == |frames| == NR_DESC
  {
  }

  lemma StillLoaded(txd: seq<TxDesc>, frames: seq<seq<Byte>>, ram: seq<Word>, nr: nat, d: TxDesc, frame: seq<Byte>,
                    ram': seq<Word>)
    requires |ram| == |ram'| == MEM_WORDS && nr < NR_DESC && Loaded(txd, frames, ram) && SameOutside(ram, ram', nr)
    requires d.offset == DescOffset(Tx, nr) && d.len == |frame| && Sent(ram', nr, frame)
    ensures |txd| == |frames| == NR_DESC && Loaded(txd[nr := d], frames[nr := frame], ram')
  {
    hide Sent, DescOffset, SameOutside;
    forall i | 0 <= i < NR_DESC && i != nr && txd[i].ready
      ensures Sent(ram', i, frames[i])
    {
      StillSent(ram, ram', i, nr, frames[i]);
    }
  }

  lemma StillSent(ram: seq<Word>, ram': seq<Word>, i: nat, nr: nat, frame: seq<Byte>)
    requires |ram| == |ram'| == MEM_WORDS && i < NR_DESC && nr < NR_DESC && i != nr
    requires Sent(ram, i, frame) && SameOutside(ram, ram', nr)
    ensures Sent(ram', i, frame)
  {
    hide Unpacked;
    WindowsDisjoint(Tx, i, Tx, nr);
    CopyFitsWindow(|frame|);
    var from := DescOffset(Tx, i) / 4;
    assert ram'[from..from + Words(|frame|)] == ram[from..from + Words(|frame|)];
  }

  lemma SentNow(ram: seq<Word>, nr: nat, data: seq<Byte>, from: nat, len: nat)
    requires |ram| == MEM_WORDS && nr < NR_DESC && from + len <= |data| && len <= MTU
    requires var w := DescOffset(Tx, nr) / 4;
             Unpacked(ram[w..w + Words(len)])[DDATA_OFFSET..DDATA_OFFSET + len] == data[from..from + len]
    ensures Sent(ram, nr, data[from..from + len])
  {
  }

  lemma StillBooked(slots: seq<Slot>, filledBy: seq<nat>, attempts: nat, i: nat, skb: nat)
    requires Booked(slots, filledBy, attempts) && i < NR_DESC
    ensures |slots| == |filledBy| == NR_DESC && Booked(slots, filledBy, attempts + 1)
    ensures Booked(slots[i := Slot(Some(skb), FrameId(attempts))], filledBy[i := attempts], attempts + 1)
  {
  }
}
