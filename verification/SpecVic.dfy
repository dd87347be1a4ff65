/** The vectored interrupt controller (kernel/spec-vic.c) and the life cycle of the
interrupts that go through it (kernel/spec-fmc.c). */
module SpecVic {
  import opened Common

  const VECTORS := 32
  const ENODEV := 19
  const ENOMEM := 12
  const EINVAL := 22
  const EBUSY := 16

  function ToWord(i: int): nat { i % TWO32 }

  lemma WordAndBack(w: nat)
    requires w < TWO32
    ensures ToWord(ToInt32(w)) == w
  {
  }

  /** One entry of the software table; handlers are known by number. */
  datatype Vector = Vector(savedId: int, handler: Option<nat>)

  /** What is registered on the PCI interrupt line. */
  datatype PciHandler = Master | Direct(handler: nat)

  /** The state of the controller, of the software table (if there is one) and of
      the PCI line. */
  datatype View = View(vectors: Option<seq<Vector>>, ivt: seq<nat>, enabled: seq<bool>,
                       running: bool, pci: seq<PciHandler>)
  {
    ghost predicate Ok() {
      && |ivt| == |enabled| == VECTORS
      && (forall i :: 0 <= i < VECTORS ==> ivt[i] < TWO32)
      && (vectors.Some? ==> |vectors.value| == VECTORS)
    }
  }

  // ------------------------------------------------------- the steps, abstractly

  /** The enable mask after 0xffffffff went to the disable register. */
  function AllOff(): (mask: seq<bool>)
    ensures |mask| == VECTORS && forall i :: 0 <= i < VECTORS ==> !mask[i]
  {
    seq(VECTORS, _ => false)
  }

  /** The first vector, from `i` on, that was found with a given id. */
  function Find(vs: seq<Vector>, id: int, i: nat): (k: nat)
    requires |vs| == VECTORS && i <= VECTORS
    ensures i <= k <= VECTORS
    ensures k < VECTORS ==> vs[k].savedId == id
    ensures forall j :: i <= j < k ==> vs[j].savedId != id
    decreases VECTORS - i
  {
    if i == VECTORS || vs[i].savedId == id then i else Find(vs, id, i + 1)
  }

  /** The software table that spec_vic_init copies out of the IVT RAM. */
  function Copied(ivt: seq<nat>): (vs: seq<Vector>)
    ensures |vs| == |ivt|
    ensures forall i :: 0 <= i < |vs| ==> vs[i] == Vector(ToInt32(ivt[i]), None)
  {
    seq(|ivt|, i requires 0 <= i < |ivt| => Vector(ToInt32(ivt[i]), None))
  }

  lemma FindNext(vs: seq<Vector>, id: int, i: nat)
    requires |vs| == VECTORS && i < VECTORS
    ensures Find(vs, id, i) == if vs[i].savedId == id then i else Find(vs, id, i + 1)
  {
  }

  /** spec_vic_init */
  function Inited(v: View): View { View(Some(Copied(v.ivt)), v.ivt, AllOff(), true, v.pci) }

  /** spec_vic_irq_request once the table exists. */
  function Assigned(v: View, id: int, handler: nat): View
    requires v.Ok() && v.vectors.Some?
  {
    var k := Find(v.vectors.value, id, 0);
    if k == VECTORS then v
    else v.(vectors := Some(v.vectors.value[k := Vector(id, Some(handler))]), ivt := v.ivt[k := k],
            enabled := v.enabled[k := true])
  }

  function HandlerCount(vs: seq<Vector>, n: nat): nat
    requires n <= |vs|
  {
    if n == 0 then 0 else HandlerCount(vs, n - 1) + if vs[n - 1].handler.Some? then 1 else 0
  }

  /** The loop of spec_vic_irq_free, up to vector `n`. */
  function Released(v: View, id: int, n: nat): (r: View)
    requires v.Ok() && v.vectors.Some? && n <= VECTORS
    ensures r.Ok() && r.vectors.Some?
  {
    if n == 0 then v
    else
      var u := Released(v, id, n - 1);
      var x := u.vectors.value[n - 1];
      if x.savedId == id then
        u.(vectors := Some(u.vectors.value[n - 1 := x.(handler := None)]), ivt := u.ivt[n - 1 := ToWord(id)],
           enabled := u.enabled[n - 1 := false])
      else u
  }

  /** spec_vic_exit */
  function Exited(v: View): View { v.(vectors := None, enabled := AllOff(), running := false) }

  /** spec_vic_irq_free */
  function FreeVector(v: View, id: int): View
    requires v.Ok() && v.vectors.Some?
  {
    var r := Released(v, id, VECTORS);
    if HandlerCount(r.vectors.value, VECTORS) == 0 then Exited(r) else r
  }

  /** What the outside world grants: a VIC in the gateware, memory, the PCI line. */
  datatype World = World(vic: bool, memory: bool, line: bool)

  /** Whether a request sets up a table that is not there yet. */
  predicate CanInit(w: World) { w.vic && w.memory }

  /** spec_irq_request in VIC mode. */
  function Request(v: View, id: int, handler: nat, w: World): View
    requires v.Ok()
  {
    if v.vectors.None? && !CanInit(w) then v
    else
      var u := if v.vectors.None? then Inited(v) else v;
      var k := Find(u.vectors.value, id, 0);
      if k == VECTORS then u
      else
        var a := Assigned(u, id, handler);
        if v.vectors.None? && w.line then a.(pci := a.pci + [Master]) else a
  }

  /** The return value of spec_irq_request in VIC mode. */
  function Answer(v: View, id: int, w: World): int
    requires v.Ok()
  {
    if v.vectors.None? && !w.vic then -ENODEV
    else if v.vectors.None? && !w.memory then -ENOMEM
    else if Find((if v.vectors.None? then Inited(v) else v).vectors.value, id, 0) == VECTORS then -EINVAL
    else if v.vectors.None? && !w.line then -EBUSY
    else 0
  }

  /** Whether some line of a table carries this id. */
  ghost predicate InTable(table: seq<nat>, id: int) { exists i :: 0 <= i < |table| && ToInt32(table[i]) == id }

  /** The first request, answer by answer: 0 needs everything, and -EBUSY means that the
      PCI line alone was refused. */
  lemma FirstAnswer(v: View, id: int, w: World)
    requires v.Ok() && v.vectors.None?
    ensures Answer(v, id, w) == 0 <==> CanInit(w) && InTable(v.ivt, id) && w.line
    ensures Answer(v, id, w) == -EBUSY <==> CanInit(w) && InTable(v.ivt, id) && !w.line
    ensures Answer(v, id, w) == -EINVAL <==> CanInit(w) && !InTable(v.ivt, id)
    ensures Answer(v, id, w) == -ENOMEM <==> w.vic && !w.memory
    ensures Answer(v, id, w) == -ENODEV <==> !w.vic
  {
    var vs := Copied(v.ivt);
    var k := Find(vs, id, 0);
    if k < VECTORS {
      assert ToInt32(v.ivt[k]) == id;
    } else {
      assert forall i :: 0 <= i < VECTORS ==> vs[i].savedId == ToInt32(v.ivt[i]) && vs[i].savedId != id;
    }
  }

  /** spec_irq_free */
  function Free(v: View, id: int): View
    requires v.Ok()
  {
    var u := if v.vectors.Some? then FreeVector(v, id) else v;
    if u.vectors.None? && u.pci != [] then u.(pci := u.pci[1..]) else u
  }

  // ------------------------------------------------------------- the registers

  class VicRegs {
    var ivt: seq<nat>
    var enabled: seq<bool>  // as shown by IMR
    var running: bool       // CTL

    constructor (ivt: seq<nat>, enabled: seq<bool>)
      requires |ivt| == |enabled| == VECTORS
      ensures this.ivt == ivt && this.enabled == enabled && !running
    {
      this.ivt, this.enabled, running := ivt, enabled, false;
    }
  }

  /** struct vic_irq_controller */
  class VicController {
    var vectors: seq<Vector>

    constructor ()
      ensures vectors == seq(VECTORS, _ => Vector(0, None))
    {
      vectors := seq(VECTORS, _ => Vector(0, None));
    }
  }

  class Spec {
    const hw: VicRegs
    var vic: VicController?
    var pci: seq<PciHandler>
    var irqsRequested: bool

    constructor (hw: VicRegs)
      requires |hw.ivt| == |hw.enabled| == VECTORS && forall i :: 0 <= i < VECTORS ==> hw.ivt[i] < TWO32
      ensures Valid() && this.hw == hw && vic == null && pci == [] && !irqsRequested
    {
      this.hw := hw;
      vic, pci, irqsRequested := null, [], false;
    }

    ghost predicate Valid()
      reads this, hw, vic
    {
      State().Ok()
    }

    ghost function State(): View
      reads this, hw, vic
    {
      View(if vic == null then None else Some(vic.vectors), hw.ivt, hw.enabled, hw.running, pci)
    }

    /** spec_vic_init */
    method Init(w: World) returns (ret: int)
      requires Valid() && vic == null
      modifies this`vic, hw
      ensures Valid()
      ensures ret == if !w.vic then -ENODEV else if !w.memory then -ENOMEM else 0
      ensures vic != null <==> CanInit(w)
      ensures vic != null ==> fresh(vic)
      ensures State() == if CanInit(w) then Inited(old(State())) else old(State())
      ensures ret == 0 ==> hw.running && hw.ivt == old(hw.ivt)
      ensures ret == 0 ==> forall i :: 0 <= i < VECTORS ==>
                !hw.enabled[i] && vic.vectors[i] == Vector(ToInt32(old(hw.ivt)[i]), None)
    {
      if !w.vic {
        return -ENODEV;
      }
      if !w.memory {
        return -ENOMEM;
      }
      var v := new VicController();
      hw.enabled := AllOff();
      for i := 0 to VECTORS
        invariant |v.vectors| == VECTORS
        invariant forall j :: 0 <= j < VECTORS ==>
                    v.vectors[j] == Vector(if j < i then ToInt32(hw.ivt[j]) else 0, None)
        modifies v
      {
        v.vectors := v.vectors[i := v.vectors[i].(savedId := ToInt32(hw.ivt[i]))];
      }
      hw.running := true;
      vic := v;
      assert v.vectors == Inited(old(State())).vectors.value;
      ret := 0;
    }

    /** spec_vic_irq_request */
    method VicRequest(id: int, handler: nat, w: World) returns (ret: int)
      requires Valid()
      modifies this`vic, hw, vic
      ensures Valid()
      ensures old(vic) == null && !CanInit(w) ==>
                ret == (if w.vic then -ENOMEM else -ENODEV) && State() == old(State())
      ensures old(vic) != null || CanInit(w) ==>
                var u := if old(vic) == null then Inited(old(State())) else old(State());
                && State() == Assigned(u, id, handler)
                && ret == if Find(u.vectors.value, id, 0) < VECTORS then 0 else -EINVAL
    {
      hide Inited, Find, Assigned;
      if vic == null {
        ret := Init(w);
        if ret != 0 {
          return;
        }
      }
      ret := Assign(id, handler);
    }

    /** Its search for the id. */
    method Assign(id: int, handler: nat) returns (ret: int)
      requires Valid() && vic != null
      modifies hw, vic
      ensures Valid() && State() == Assigned(old(State()), id, handler)
      ensures ret == if Find(old(vic.vectors), id, 0) < VECTORS then 0 else -EINVAL
    {
      hide Find;
      ghost var vs := vic.vectors;
      for i := 0 to VECTORS
        invariant Valid() && State() == old(State())
        invariant Find(vs, id, i) == Find(vs, id, 0)
      {
        FindNext(vs, id, i);
        if vic.vectors[i].savedId == id {
          hw.ivt := hw.ivt[i := i];
          vic.vectors := vic.vectors[i := vic.vectors[i].(handler := Some(handler))];
          hw.enabled := hw.enabled[i := true];
          return 0;
        }
      }
      ret := -EINVAL;
    }

    /** vic_handler_count */
    method CountHandlers() returns (count: nat)
      requires Valid() && vic != null
      ensures count == HandlerCount(vic.vectors, VECTORS)
    {
      count := 0;
      for i := 0 to VECTORS
        invariant count == HandlerCount(vic.vectors, i)
      {
        if vic.vectors[i].handler.Some? {
          count := count + 1;
        }
      }
    }

    /** vic_is_managed: the first vector with this id decides. */
    method IsManaged(id: int) returns (managed: bool)
      requires Valid()
      ensures managed <==> vic != null && var k := Find(vic.vectors, id, 0); k < VECTORS && hw.enabled[k]
    {
      if vic == null {
        return false;
      }
      hide Find;
      for i := 0 to VECTORS
        invariant Find(vic.vectors, id, i) == Find(vic.vectors, id, 0)
      {
        FindNext(vic.vectors, id, i);
        if vic.vectors[i].savedId == id {
          return hw.enabled[i];
        }
      }
      managed := false;
    }

    /** spec_vic_irq_free */
    method VicFree(id: int)
      requires Valid() && vic != null
      modifies this`vic, hw, vic
      ensures Valid() && State() == FreeVector(old(State()), id)
      ensures vic == null || vic == old(vic)
    {
      ghost var v := State();
      for i := 0 to VECTORS
        invariant Valid() && vic == old(vic) && State() == Released(v, id, i)
      {
        if vic.vectors[i].savedId == id {
          hw.enabled := hw.enabled[i := false];
          hw.ivt := hw.ivt[i := ToWord(id)];
          vic.vectors := vic.vectors[i := vic.vectors[i].(handler := None)];
        }
      }
      var count := CountHandlers();
      if count == 0 {
        hw.enabled := AllOff();
        hw.running := false;
        vic := null;
      }
    }

    /** spec_vic_irq_dispatch; `address` is the vector address register.  The result
        is the handler to be called and the id it is called with. */
    method Dispatch(address: nat) returns (call: Option<(nat, int)>)
      requires Valid()
      ensures call == Dispatched(State(), address)
    {
      if vic == null {
        return None;
      }
      var index := address % 256;
      if index >= VECTORS {
        return None;
      }
      var vec := vic.vectors[index];
      if vec.handler.None? {
        return None;
      }
      call := Some((vec.handler.value, vec.savedId));
    }

    /** spec_irq_request, in VIC mode or (with `shared`) directly on the PCI line. */
    method IrqRequest(id: int, handler: nat, shared: bool, w: World) returns (ret: int)
      requires Valid()
      modifies this, hw, vic
      ensures Valid()
      ensures !shared ==> State() == Request(old(State()), id, handler, w) && ret == Answer(old(State()), id, w)
      ensures shared ==> ret == (if w.line then 0 else -EBUSY)
      ensures shared ==> State() == old(State()).(pci := if w.line then old(pci) + [Direct(handler)] else old(pci))
      ensures irqsRequested <==> old(irqsRequested) || ret == 0
      // the first request is granted exactly if there is a VIC, memory, the id and the PCI line
      ensures !shared && old(vic) == null ==>
                && (ret == 0 <==> CanInit(w) && InTable(old(hw.ivt), id) && w.line)
                && (ret == -EBUSY <==> CanInit(w) && InTable(old(hw.ivt), id) && !w.line)
    {
      hide Find, Inited, InTable;
      if vic == null {
        FirstAnswer(State(), id, w);
      }
      if !shared {
        var first := vic == null;
        ret := VicRequest(id, handler, w);
        if ret != 0 {
          return;
        }
        if first {
          if !w.line {
            return -EBUSY;
          }
          pci := pci + [Master];
        }
      } else {
        ret := if w.line then 0 else -EBUSY;
        if w.line {
          pci := pci + [Direct(handler)];
        }
      }
      if ret == 0 {
        irqsRequested := true;
      }
    }

    /** spec_irq_free */
    method IrqFree(id: int)
      requires Valid()
      modifies this, hw, vic
      ensures Valid() && State() == Free(old(State()), id)
      // without a table, before or now, the PCI line is given back
      ensures old(vic) == null ==> vic == null && unchanged(hw)
      ensures pci == if vic == null && old(pci) != [] then old(pci)[1..] else old(pci)
    {
      if vic != null {
        VicFree(id);
      }
      if vic == null && pci != [] {
        pci := pci[1..];
      }
    }
  }

  function Dispatched(v: View, address: nat): Option<(nat, int)>
    requires v.vectors.Some? ==> |v.vectors.value| == VECTORS
  {
    var index := address % 256;
    if v.vectors.None? || index >= VECTORS then None
    else
      var vec := v.vectors.value[index];
      if vec.handler.None? then None else Some((vec.handler.value, vec.savedId))
  }
}
