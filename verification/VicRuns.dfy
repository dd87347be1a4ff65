/** What holds of the vectored interrupt controller after any history of requests
and releases. */
module VicRuns {
  import opened Common
  import opened SpecVic

  /** One call of spec_irq_request in VIC mode, or of spec_irq_free. */
  datatype Op = Ask(id: int, handler: nat, world: World) | Drop(id: int)

  ghost function Step(v: View, op: Op): (u: View)
    requires v.Ok()
    ensures u.Ok()
  {
    match op
    case Ask(id, handler, w) => Request(v, id, handler, w)
    case Drop(id) => Free(v, id)
  }

  /** The state after the first `n` calls of a history. */
  ghost function Run(v: View, ops: seq<Op>, n: nat): (u: View)
    requires v.Ok() && n <= |ops|
    ensures u.Ok()
  {
    if n == 0 then v else Step(Run(v, ops, n - 1), ops[n - 1])
  }

  // ------------------------------------------------------ table, RAM and mask agree

  /** The gateware's own vector table: one 32-bit id per line. */
  ghost predicate IsTable(table: seq<nat>) {
    |table| == VECTORS && forall i :: 0 <= i < VECTORS ==> table[i] < TWO32
  }

  /** The software table is the gateware's, with handlers filled in. */
  ghost predicate Holds(vs: seq<Vector>, table: seq<nat>)
    requires IsTable(table)
  {
    |vs| == VECTORS && forall i :: 0 <= i < VECTORS ==> vs[i].savedId == ToInt32(table[i])
  }

  /** Line by line: a handler is there exactly if the line is enabled, exactly then
      the IVT entry is the line's own index, and otherwise it is the gateware's id;
      among lines with one id only the first is ever used. */
  ghost predicate LineAgrees(v: View, table: seq<nat>, i: nat)
    requires v.Ok() && v.vectors.Some? && IsTable(table) && i < VECTORS
  {
    var vs := v.vectors.value;
    && (vs[i].handler.Some? <==> v.enabled[i])
    && v.ivt[i] == (if vs[i].handler.Some? then i else table[i])
    && (vs[i].handler.Some? ==> Find(vs, vs[i].savedId, 0) == i)
  }

  ghost predicate Agree(v: View, table: seq<nat>) {
    && v.Ok() && IsTable(table)
    && (v.vectors.None? ==> v.ivt == table)
    && (v.vectors.Some? ==>
          && Holds(v.vectors.value, table)
          && forall i :: 0 <= i < VECTORS ==> LineAgrees(v, table, i))
  }

  /** Only the saved ids decide what a search finds. */
  lemma {:induction false} FindSame(xs: seq<Vector>, ys: seq<Vector>, id: int, i: nat)
    requires |xs| == |ys| == VECTORS && i <= VECTORS
    requires forall j :: 0 <= j < VECTORS ==> xs[j].savedId == ys[j].savedId
    ensures Find(xs, id, i) == Find(ys, id, i)
    decreases VECTORS - i
  {
    if i < VECTORS {
      FindSame(xs, ys, id, i + 1);
    }
  }

  lemma InitedAgrees(v: View, table: seq<nat>)
    requires Agree(v, table) && v.vectors.None?
    ensures Agree(Inited(v), table)
  {
  }

  lemma AssignedAgrees(v: View, table: seq<nat>, id: int, handler: nat)
    requires Agree(v, table) && v.vectors.Some?
    ensures Agree(Assigned(v, id, handler), table)
  {
    var vs, u := v.vectors.value, Assigned(v, id, handler);
    forall i | 0 <= i < VECTORS
      ensures LineAgrees(u, table, i)
    {
      assert LineAgrees(v, table, i);
      FindSame(vs, u.vectors.value, vs[i].savedId, 0);
    }
  }

  /** The releasing loop, line by line. */
  lemma {:induction false} ReleasedAt(v: View, table: seq<nat>, id: int, n: nat)
    requires Agree(v, table) && v.vectors.Some? && n <= VECTORS
    ensures var u := Released(v, id, n);
            && Holds(u.vectors.value, table) && u.pci == v.pci && u.running == v.running
            && forall i :: 0 <= i < VECTORS ==>
                 var hit := i < n && v.vectors.value[i].savedId == id;
                 && u.vectors.value[i].handler == (if hit then None else v.vectors.value[i].handler)
                 && u.enabled[i] == (!hit && v.enabled[i])
                 && u.ivt[i] == if hit then table[i] else v.ivt[i]
  {
    if n > 0 {
      ReleasedAt(v, table, id, n - 1);
      WordAndBack(table[n - 1]);
    }
  }

  lemma {:induction false} NoHandlers(vs: seq<Vector>, n: nat)
    requires n <= |vs|
    ensures HandlerCount(vs, n) == 0 <==> forall i :: 0 <= i < n ==> vs[i].handler.None?
  {
    if n > 0 {
      NoHandlers(vs, n - 1);
    }
  }

  lemma ReleasedAgrees(v: View, table: seq<nat>, id: int)
    requires Agree(v, table) && v.vectors.Some?
    ensures Agree(Released(v, id, VECTORS), table)
  {
    var vs, u := v.vectors.value, Released(v, id, VECTORS);
    ReleasedAt(v, table, id, VECTORS);
    forall i | 0 <= i < VECTORS
      ensures LineAgrees(u, table, i)
    {
      assert LineAgrees(v, table, i);
      FindSame(vs, u.vectors.value, vs[i].savedId, 0);
    }
  }

  /** The release that removes the last handler puts the gateware's table back,
      switches every line off and stops the controller; any other release leaves the
      controller as it was. */
  lemma LastFreeRestores(v: View, table: seq<nat>, id: int)
    requires Agree(v, table) && v.vectors.Some?
    ensures var u := FreeVector(v, id);
            && Agree(u, table)
            && (u.vectors.None? <==>
                  forall i :: 0 <= i < VECTORS && v.vectors.value[i].handler.Some? ==> v.vectors.value[i].savedId == id)
            && (u.vectors.None? ==> u.ivt == table && u.enabled == AllOff() && !u.running)
            && (u.vectors.Some? ==> u.running == v.running)
            && u.pci == v.pci
  {
    var r := Released(v, id, VECTORS);
    ReleasedAt(v, table, id, VECTORS);
    ReleasedAgrees(v, table, id);
    NoHandlers(r.vectors.value, VECTORS);
    if HandlerCount(r.vectors.value, VECTORS) == 0 {
      forall i | 0 <= i < VECTORS
        ensures r.ivt[i] == table[i]
      {
        assert LineAgrees(r, table, i);
      }
      assert r.ivt == table;
    }
  }

  lemma StepAgrees(v: View, table: seq<nat>, op: Op)
    requires Agree(v, table)
    ensures Agree(Step(v, op), table)
  {
    match op
    case Ask(id, handler, w) =>
      if v.vectors.None? {
        InitedAgrees(v, table);
        AssignedAgrees(Inited(v), table, id, handler);
      } else {
        AssignedAgrees(v, table, id, handler);
      }
    case Drop(id) =>
      if v.vectors.Some? {
        LastFreeRestores(v, table, id);
      }
  }

  /** Agreement after every history, whatever ids it names and whatever fails in it. */
  lemma {:induction false} AlwaysAgrees(v: View, table: seq<nat>, ops: seq<Op>, n: nat)
    requires Agree(v, table) && n <= |ops|
    ensures Agree(Run(v, ops, n), table)
  {
    if n > 0 {
      AlwaysAgrees(v, table, ops, n - 1);
      StepAgrees(Run(v, ops, n - 1), table, ops[n - 1]);
    }
  }

  // --------------------------------------------- an interrupt reaches its last owner

  /** The handler an interrupt with this id would be given to. */
  ghost function HandlerOf(v: View, id: int): Option<nat>
    requires v.Ok()
  {
    if v.vectors.None? then None
    else
      var k := Find(v.vectors.value, id, 0);
      if k == VECTORS then None else v.vectors.value[k].handler
  }

  /** The return values after which a handler is in the table.  -EBUSY is one of them:
      the PCI line is asked for last, and nothing is undone when it is refused. */
  ghost predicate Placed(v: View, id: int, w: World)
    requires v.Ok()
  {
    Answer(v, id, w) == 0 || Answer(v, id, w) == -EBUSY
  }

  /** Who owns `id` after `n` calls, read off the calls and their answers alone: the
      last one that placed a handler for `id`, unless it was released since. */
  ghost function Owner(v: View, ops: seq<Op>, n: nat, id: int): Option<nat>
    requires v.Ok() && n <= |ops|
  {
    if n == 0 then HandlerOf(v, id)
    else match ops[n - 1]
      case Ask(i, handler, w) =>
        if i == id && Placed(Run(v, ops, n - 1), i, w) then Some(handler) else Owner(v, ops, n - 1, id)
      case Drop(i) => if i == id then None else Owner(v, ops, n - 1, id)
  }

  lemma AssignedOwner(v: View, table: seq<nat>, asked: int, handler: nat, id: int)
    requires Agree(v, table) && v.vectors.Some?
    ensures HandlerOf(Assigned(v, asked, handler), id) ==
            if asked == id && Find(v.vectors.value, id, 0) < VECTORS then Some(handler) else HandlerOf(v, id)
  {
    var u := Assigned(v, asked, handler);
    FindSame(v.vectors.value, u.vectors.value, id, 0);
  }

  lemma FreedOwner(v: View, table: seq<nat>, freed: int, id: int)
    requires Agree(v, table) && v.vectors.Some?
    ensures HandlerOf(FreeVector(v, freed), id) == if freed == id then None else HandlerOf(v, id)
  {
    var r := Released(v, freed, VECTORS);
    ReleasedAt(v, table, freed, VECTORS);
    FindSame(v.vectors.value, r.vectors.value, id, 0);
    NoHandlers(r.vectors.value, VECTORS);
  }

  lemma StepOwner(v: View, table: seq<nat>, op: Op, id: int)
    requires Agree(v, table)
    ensures HandlerOf(Step(v, op), id) ==
            match op
            case Ask(i, handler, w) => if i == id && Placed(v, i, w) then Some(handler) else HandlerOf(v, id)
            case Drop(i) => if i == id then None else HandlerOf(v, id)
  {
    hide Assigned, FreeVector, LineAgrees, Find;
    match op {
      case Ask(asked, handler, w) =>
        if v.vectors.None? {
          InitedAgrees(v, table);
          AssignedOwner(Inited(v), table, asked, handler, id);
        } else {
          AssignedOwner(v, table, asked, handler, id);
        }
      case Drop(freed) =>
        if v.vectors.Some? {
          FreedOwner(v, table, freed, id);
        }
    }
  }

  lemma {:induction false} OwnerIsServed(v: View, table: seq<nat>, ops: seq<Op>, n: nat, id: int)
    requires Agree(v, table) && n <= |ops|
    ensures HandlerOf(Run(v, ops, n), id) == Owner(v, ops, n, id)
  {
    hide LineAgrees, Holds, Find, HandlerOf, Placed;
    if n > 0 {
      OwnerIsServed(v, table, ops, n - 1, id);
      AlwaysAgrees(v, table, ops, n - 1);
      StepOwner(Run(v, ops, n - 1), table, ops[n - 1], id);
    }
  }

  lemma EnabledLineDispatches(v: View, table: seq<nat>, line: nat)
    requires Agree(v, table) && v.vectors.Some? && line < VECTORS && v.enabled[line]
    ensures HandlerOf(v, ToInt32(table[line])).Some?
    ensures Dispatched(v, v.ivt[line]) == Some((HandlerOf(v, ToInt32(table[line])).value, ToInt32(table[line])))
  {
    hide ToInt32, Find;
    assert LineAgrees(v, table, line);
  }

  /** After any history, an enabled line that is pending shows its IVT entry in the
      vector address register, and the dispatcher calls the owner of its id, with that id. */
  lemma PendingLineFindsItsOwner(v: View, table: seq<nat>, ops: seq<Op>, u: View, line: nat, id: int)
    requires Agree(v, table) && u == Run(v, ops, |ops|)
    requires u.vectors.Some? && line < VECTORS && u.enabled[line] && id == ToInt32(table[line])
    ensures Owner(v, ops, |ops|, id).Some?
    ensures Dispatched(u, u.ivt[line]) == Some((Owner(v, ops, |ops|, id).value, id))
  {
    hide *;
    AlwaysAgrees(v, table, ops, |ops|);
    OwnerIsServed(v, table, ops, |ops|, id);
    EnabledLineDispatches(u, table, line);
  }

  /** The other way round: an id has an owner exactly if the controller is up and the
      first line with that id is enabled (which is what vic_is_managed reads back). */
  lemma OwnedIffEnabled(v: View, table: seq<nat>, ops: seq<Op>, id: int)
    requires Agree(v, table)
    ensures var u := Run(v, ops, |ops|);
            Owner(v, ops, |ops|, id).Some? <==>
            u.vectors.Some? && Find(u.vectors.value, id, 0) < VECTORS && u.enabled[Find(u.vectors.value, id, 0)]
  {
    var u := Run(v, ops, |ops|);
    AlwaysAgrees(v, table, ops, |ops|);
    OwnerIsServed(v, table, ops, |ops|, id);
    if u.vectors.Some? && Find(u.vectors.value, id, 0) < VECTORS {
      assert LineAgrees(u, table, Find(u.vectors.value, id, 0));
    }
  }

  // ------------------------------------------------- the controller and the PCI line

  /** The master handler is on the PCI line exactly while there is a table, and a table
      never outlives its last handler. */
  ghost predicate Wired(v: View) {
    && v.pci == (if v.vectors.Some? then [Master] else [])
    && (v.vectors.Some? ==> exists i :: 0 <= i < |v.vectors.value| && v.vectors.value[i].handler.Some?)
  }

  /** Exactly when a request keeps the line and the table together: not when the request
      that creates the table names an unknown id, and not when the PCI line is refused. */
  lemma RequestKeepsWired(v: View, table: seq<nat>, id: int, handler: nat, w: World)
    requires Agree(v, table) && Wired(v)
    ensures Wired(Request(v, id, handler, w)) <==>
            v.vectors.Some? || !CanInit(w) || (InTable(table, id) && w.line)
  {
    if v.vectors.None? && CanInit(w) {
      var vs := Inited(v).vectors.value;
      var k := Find(vs, id, 0);
      if k < VECTORS {
        assert ToInt32(table[k]) == id;
        assert Assigned(Inited(v), id, handler).vectors.value[k].handler.Some?;
      } else {
        assert forall i :: 0 <= i < VECTORS ==> vs[i].savedId == ToInt32(table[i]) && vs[i].savedId != id;
      }
    } else if v.vectors.Some? {
      var vs := v.vectors.value;
      var i :| 0 <= i < VECTORS && vs[i].handler.Some?;
      assert Assigned(v, id, handler).vectors.value[i].handler.Some?;
    }
  }

  /** What the answers mean: without a table, 0 takes a VIC, memory, a line with the id, and
      the PCI line, and -EBUSY says that only the last was missing; with one, the id. */
  lemma AnswerMeans(v: View, table: seq<nat>, id: int, w: World)
    requires Agree(v, table)
    ensures Answer(v, id, w) == 0 <==> (v.vectors.Some? || (CanInit(w) && w.line)) && InTable(table, id)
    ensures Answer(v, id, w) == -EBUSY <==> v.vectors.None? && CanInit(w) && InTable(table, id) && !w.line
    ensures Answer(v, id, w) == -EINVAL <==> (v.vectors.Some? || CanInit(w)) && !InTable(table, id)
  {
    if v.vectors.None? {
      FirstAnswer(v, id, w);
    } else {
      var vs := v.vectors.value;
      var k := Find(vs, id, 0);
      assert forall i :: 0 <= i < VECTORS ==> vs[i].savedId == ToInt32(table[i]);
      if k < VECTORS {
        assert ToInt32(table[k]) == id;
      }
    }
  }

  lemma {:induction false} ReleasedKeepsRunning(v: View, id: int, n: nat)
    requires v.Ok() && v.vectors.Some? && n <= VECTORS
    ensures Released(v, id, n).running == v.running
  {
    if n > 0 {
      ReleasedKeepsRunning(v, id, n - 1);
    }
  }

  /** After every history that begins with a stopped controller, whatever ids it names and
      whatever fails in it, the controller runs exactly while there is a table. */
  lemma {:induction false} RunsWithItsTable(v: View, ops: seq<Op>, n: nat)
    requires v.Ok() && v.vectors.None? && !v.running && n <= |ops|
    ensures Run(v, ops, n).running <==> Run(v, ops, n).vectors.Some?
  {
    hide Find, Released, HandlerCount;
    if n > 0 {
      RunsWithItsTable(v, ops, n - 1);
      var u := Run(v, ops, n - 1);
      match ops[n - 1]
      case Ask(_, _, _) =>
      case Drop(id) =>
        if u.vectors.Some? {
          ReleasedKeepsRunning(u, id, VECTORS);
        }
    }
  }

  lemma {:induction false} RunPrefix(v: View, ops: seq<Op>, op: Op, n: nat)
    requires v.Ok() && n <= |ops|
    ensures Run(v, ops + [op], n) == Run(v, ops, n)
  {
    hide Step;
    if n > 0 {
      RunPrefix(v, ops, op, n - 1);
    }
  }

  lemma ServedLine(u: View, table: seq<nat>, id: int)
    requires Agree(u, table) && HandlerOf(u, id).Some?
    ensures u.vectors.Some?
    ensures exists k :: 0 <= k < VECTORS && ToInt32(table[k]) == id && u.enabled[k]
                        && Dispatched(u, u.ivt[k]) == Some((HandlerOf(u, id).value, id))
  {
    hide ToInt32, Find;
    var k := Find(u.vectors.value, id, 0);
    assert LineAgrees(u, table, k);
    assert ToInt32(table[k]) == id;
    EnabledLineDispatches(u, table, k);
  }

  /** What an answer of 0 is worth, at any moment of an orderly history: the controller runs,
      the master handler is on the PCI line, and the line of the id, once pending, calls the
      handler with that id. */
  lemma GrantedIsServed(v: View, table: seq<nat>, ops: seq<Op>, id: int, handler: nat, w: World)
    requires Agree(v, table) && v.vectors.None? && !v.running && v.pci == [] && Orderly(table, ops)
    requires Answer(Run(v, ops, |ops|), id, w) == 0
    ensures var u := Run(v, ops + [Ask(id, handler, w)], |ops| + 1);
            && u.running && u.pci == [Master] && u.vectors.Some?
            && exists k :: 0 <= k < VECTORS && ToInt32(table[k]) == id && u.enabled[k]
                           && Dispatched(u, u.ivt[k]) == Some((handler, id))
  {
    hide Find, Request, Answer, LineAgrees, Holds, Orderly, Dispatched, HandlerOf, InTable;
    var all := ops + [Ask(id, handler, w)];
    var was, u := Run(v, ops, |ops|), Run(v, all, |ops| + 1);
    assert Wired(v);
    AlwaysAgrees(v, table, ops, |ops|);
    AlwaysWired(v, table, ops, |ops|);
    RunsWithItsTable(v, all, |ops| + 1);
    AlwaysAgrees(v, table, all, |ops| + 1);
    RunPrefix(v, ops, all[|ops|], |ops|);
    StepOwner(was, table, all[|ops|], id);
    RequestKeepsWired(was, table, id, handler, w);
    AnswerMeans(was, table, id, w);
    ServedLine(u, table, id);
  }

  /** No other call is ever made: whatever the vector address register shows, a handler is
      called only if it owns the id it is called with, and the line of that id is enabled. */
  lemma OnlyOwnersAreCalled(v: View, table: seq<nat>, ops: seq<Op>, address: nat)
    requires Agree(v, table)
    ensures var u := Run(v, ops, |ops|);
            Dispatched(u, address).Some? ==>
              var k, id := address % 256, Dispatched(u, address).value.1;
              && u.vectors.Some? && k < VECTORS && u.enabled[k] && ToInt32(table[k]) == id
              && Owner(v, ops, |ops|, id) == Some(Dispatched(u, address).value.0)
  {
    hide Find;
    var u := Run(v, ops, |ops|);
    AlwaysAgrees(v, table, ops, |ops|);
    if Dispatched(u, address).Some? {
      var k := address % 256;
      assert LineAgrees(u, table, k);
      OwnerIsServed(v, table, ops, |ops|, ToInt32(table[k]));
    }
  }

  lemma FreeKeepsWired(v: View, id: int)
    requires v.Ok() && Wired(v)
    ensures Wired(Free(v, id))
  {
    if v.vectors.Some? {
      var r := Released(v, id, VECTORS);
      ReleasedKeepsPci(v, id, VECTORS);
      NoHandlers(r.vectors.value, VECTORS);
    }
  }

  lemma {:induction false} ReleasedKeepsPci(v: View, id: int, n: nat)
    requires v.Ok() && v.vectors.Some? && n <= VECTORS
    ensures Released(v, id, n).pci == v.pci
  {
    if n > 0 {
      ReleasedKeepsPci(v, id, n - 1);
    }
  }

  /** A history in which every request names an id of the table and gets the PCI line. */
  ghost predicate Orderly(table: seq<nat>, ops: seq<Op>) {
    forall i :: 0 <= i < |ops| && ops[i].Ask? ==> InTable(table, ops[i].id) && ops[i].world.line
  }

  lemma {:induction false} AlwaysWired(v: View, table: seq<nat>, ops: seq<Op>, n: nat)
    requires Agree(v, table) && Wired(v) && Orderly(table, ops) && n <= |ops|
    ensures Wired(Run(v, ops, n))
  {
    if n > 0 {
      AlwaysWired(v, table, ops, n - 1);
      AlwaysAgrees(v, table, ops, n - 1);
      var u := Run(v, ops, n - 1);
      match ops[n - 1]
      case Ask(id, handler, w) => RequestKeepsWired(u, table, id, handler, w);
      case Drop(id) => FreeKeepsWired(u, id);
    }
  }

  /** What an unknown first id costs: the table stays, so the next request, for a known
      id, answers 0 and enables its line, while nothing listens on the PCI line. */
  lemma UnknownFirstIdLosesInterrupts(v: View, table: seq<nat>, unknown: int, known: int, handler: nat, w: World)
    requires Agree(v, table) && v.vectors.None? && v.pci == [] && CanInit(w)
    requires !InTable(table, unknown) && InTable(table, known)
    ensures var u := Request(v, unknown, handler, w);
            && Answer(v, unknown, w) == -EINVAL && u.vectors.Some?
            && Answer(u, known, w) == 0
            && HandlerOf(Request(u, known, handler, w), known) == Some(handler)
            && Request(u, known, handler, w).pci == []
  {
    var t := Inited(v);
    var vs := t.vectors.value;
    assert forall i :: 0 <= i < VECTORS ==> vs[i].savedId == ToInt32(table[i]);
    InitedAgrees(v, table);
    AssignedOwner(t, table, known, handler, known);
  }
}
