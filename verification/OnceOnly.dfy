/** Which registration is called when, over whole runs.  The emitter never looks
    at data, so a run with other data values is the same run; with the step
    number for data, every call tells which registration it belongs to. */
module OnceOnly {
  import opened EventModel
  import opened PlainEmitter
  import opened EventRefinement

  /** The events that carry the data value. */
  ghost function Tagged(events: seq<Event>, data: int): seq<Event>
  {
    if events == [] then [] else
      var e := events[|events| - 1];
      var tagged := Tagged(events[..|events| - 1], data);
      if e.data == data then tagged + [e] else tagged
  }

  lemma TaggedOneMore(events: seq<Event>, e: Event, data: int)
    ensures Tagged(events + [e], data) == if e.data == data then Tagged(events, data) + [e] else Tagged(events, data)
  {
    assert (events + [e])[..|events|] == events;
  }

  /** Selecting by data commutes with what off and emit do to the list. */
  lemma {:induction false} TaggedCommutes(regs: seq<Event>, w: string, listener: nat, data: int)
    ensures Tagged(Without(regs, w, listener), data) == Without(Tagged(regs, data), w, listener)
    ensures Tagged(Called(regs, w), data) == Called(Tagged(regs, data), w)
    ensures Tagged(AfterEmit(regs, w), data) == AfterEmit(Tagged(regs, data), w)
  {
    if regs != [] {
      var init, r := regs[..|regs| - 1], regs[|regs| - 1];
      TaggedCommutes(init, w, listener, data);
      assert regs == init + [r];
      OneMore(init, r, w, listener);
      OneMore(Tagged(init, data), r, w, listener);
      TaggedOneMore(Without(init, w, listener), r, data);
      TaggedOneMore(Called(init, w), r, data);
      TaggedOneMore(AfterEmit(init, w), r, data);
    }
  }

  /** The operation removes the registration e, or calls it for the last time. */
  predicate Ends(op: Op, e: Event)
  {
    (e.once && op == Emit(e.name)) || op == Off(e.name, e.listener)
  }

  /** Nothing in ops[from..to] ends e. */
  ghost predicate Survives(ops: seq<Op>, e: Event, from: nat, to: nat)
    requires to <= |ops|
  {
    forall k :: from <= k < to ==> !Ends(ops[k], e)
  }

  lemma SurvivesTail(ops: seq<Op>, e: Event, from: nat, to: nat)
    requires 1 <= to <= |ops|
    ensures from > 0 ==> (Survives(ops, e, from, to) <==> Survives(ops[1..], e, from - 1, to - 1))
    ensures Survives(ops, e, 0, to) <==> !Ends(ops[0], e) && Survives(ops[1..], e, 0, to - 1)
  {
    var rest := ops[1..];
    assert forall k :: 0 <= k < |rest| ==> rest[k] == ops[k + 1];
    assert forall k :: 1 <= k < to ==> ops[k] == rest[k - 1];
  }

  predicate Reuses(op: Op, data: int)
  {
    op.On? && op.data == data
  }

  /** The calls that carry e's data when op is executed with e still pending. */
  ghost function Expected(pending: bool, op: Op, e: Event): seq<Event>
  {
    if pending && op == Emit(e.name) && e.listener != 0 then [e] else []
  }

  lemma {:induction false} TaggedSubset(events: seq<Event>, data: int)
    ensures forall e :: e in Tagged(events, data) <==> e in events && e.data == data
  {
    if events != [] {
      TaggedSubset(events[..|events| - 1], data);
    }
  }

  lemma TaggedOff(p: Plain, w: string, listener: nat, e: Event, pending: bool)
    requires Sound(p) && Tagged(p.regs, e.data) == if pending then [e] else []
    ensures Tagged(p.Step(Off(w, listener)).0.regs, e.data) == if pending && !Ends(Off(w, listener), e) then [e] else []
  {
    TaggedCommutes(p.regs, w, listener, e.data);
    OnlyOne(p, e, w, listener, pending);
  }

  /** The list of one pending registration, after off and emit. */
  lemma OnlyOne(p: Plain, e: Event, w: string, listener: nat, pending: bool)
    requires Sound(p) && Tagged(p.regs, e.data) == if pending then [e] else []
    ensures pending ==> e.name in p.registered
    ensures Without([e], w, listener) == if e.name == w && e.listener == listener then [] else [e]
    ensures Called([e], w) == if e.name == w && e.listener != 0 then [e] else []
    ensures AfterEmit([e], w) == if e.name == w && e.once then [] else [e]
    ensures Without([], w, listener) == Called([], w) == AfterEmit([], w) == []
  {
    TaggedSubset(p.regs, e.data);
    if pending {
      assert e in Tagged(p.regs, e.data);
    }
    OneMore([], e, w, listener);
    assert [] + [e] == [e];
  }

  lemma TaggedEmit(p: Plain, w: string, e: Event, pending: bool)
    requires Sound(p) && Tagged(p.regs, e.data) == if pending then [e] else []
    ensures var (p', out) := p.Step(Emit(w));
            && Tagged(out.calls, e.data) == Expected(pending, Emit(w), e)
            && Tagged(p'.regs, e.data) == if pending && !Ends(Emit(w), e) then [e] else []
  {
    TaggedCommutes(p.regs, w, 0, e.data);
    OnlyOne(p, e, w, 0, pending);
  }

  lemma TaggedOn(p: Plain, op: Op, e: Event)
    requires op.On? && !Reuses(op, e.data)
    ensures var (p', out) := p.Step(op);
            out.calls == [] && Tagged(p'.regs, e.data) == Tagged(p.regs, e.data)
  {
    TaggedOneMore(p.regs, Event(op.name, op.listener, op.data, op.once), e.data);
  }

  lemma TaggedStep(p: Plain, op: Op, e: Event, pending: bool)
    requires Sound(p) && Tagged(p.regs, e.data) == if pending then [e] else []
    requires !Reuses(op, e.data)
    ensures var (p', out) := p.Step(op);
            && Tagged(out.calls, e.data) == Expected(pending, op, e)
            && Sound(p')
            && Tagged(p'.regs, e.data) == if pending && !Ends(op, e) then [e] else []
  {
    StepSound(p, op);
    match op
    case On(w, listener, data, once) => TaggedOn(p, op, e);
    case Off(w, listener) => TaggedOff(p, w, listener, e, pending);
    case Emit(w) => TaggedEmit(p, w, e, pending);
  }

  lemma {:induction false} RunLength(p: Plain, ops: seq<Op>)
    ensures |p.Run(ops).1| == |ops|
    decreases |ops|
  {
    if ops != [] {
      RunLength(p.Step(ops[0]).0, ops[1..]);
    }
  }

  lemma FirstOfRun(p: Plain, ops: seq<Op>)
    requires ops != []
    ensures |p.Run(ops).1| == |ops|
    ensures p.Run(ops).1 == [p.Step(ops[0]).1] + p.Step(ops[0]).0.Run(ops[1..]).1
  {
    RunLength(p, ops);
  }

  /** A pending registration with data of its own is called by every emit of
      its name before it ends, and by nothing else. */
  lemma {:induction false} PendingRun(p: Plain, ops: seq<Op>, e: Event, pending: bool, j: nat)
    requires Sound(p) && Tagged(p.regs, e.data) == if pending then [e] else []
    requires forall op :: op in ops ==> !Reuses(op, e.data)
    requires j < |ops|
    ensures |p.Run(ops).1| == |ops|
    ensures Tagged(p.Run(ops).1[j].calls, e.data)
            == Expected(pending && Survives(ops, e, 0, j), ops[j], e)
    decreases |ops|
  {
    FirstOfRun(p, ops);
    TaggedStep(p, ops[0], e, pending);
    if j > 0 {
      PendingRun(p.Step(ops[0]).0, ops[1..], e, pending && !Ends(ops[0], e), j - 1);
      SurvivesTail(ops, e, 0, j);
    }
  }

  lemma RegisterStep(p: Plain, e: Event)
    requires Sound(p) && Tagged(p.regs, e.data) == []
    ensures var (p', out) := p.Step(On(e.name, e.listener, e.data, e.once));
            Sound(p') && out.calls == [] && Tagged(p'.regs, e.data) == if out.ok then [e] else []
  {
    StepSound(p, On(e.name, e.listener, e.data, e.once));
    TaggedOneMore(p.regs, e, e.data);
  }

  lemma OthersTail(ops: seq<Op>, i: nat, data: int)
    requires i < |ops| && forall k :: 0 <= k < |ops| && k != i ==> !Reuses(ops[k], data)
    ensures forall k :: 0 <= k < |ops[1..]| && k + 1 != i ==> !Reuses(ops[1..][k], data)
    ensures i == 0 ==> forall op :: op in ops[1..] ==> !Reuses(op, data)
    ensures i > 0 ==> !Reuses(ops[0], data) && ops[1..][i - 1] == ops[i]
  {
    assert forall k :: 0 <= k < |ops[1..]| ==> ops[1..][k] == ops[k + 1];
  }

  /** The same, in a run that makes the registration at step i. */
  lemma {:induction false} RegisteredRun(p: Plain, ops: seq<Op>, e: Event, i: nat, j: nat)
    requires Sound(p) && Tagged(p.regs, e.data) == [] && i < |ops| && j < |ops|
    requires ops[i] == On(e.name, e.listener, e.data, e.once)
    requires forall k :: 0 <= k < |ops| && k != i ==> !Reuses(ops[k], e.data)
    ensures |p.Run(ops).1| == |ops|
    ensures Tagged(p.Run(ops).1[j].calls, e.data)
            == Expected(i < j && p.Run(ops).1[i].ok && Survives(ops, e, i + 1, j), ops[j], e)
    decreases |ops|
  {
    FirstOfRun(p, ops);
    OthersTail(ops, i, e.data);
    var p', rest := p.Step(ops[0]).0, ops[1..];
    if i == 0 {
      RegisterStep(p, e);
      if j > 0 {
        PendingRun(p', rest, e, p.Step(ops[0]).1.ok, j - 1);
        SurvivesTail(ops, e, 1, j);
      }
    } else {
      TaggedStep(p, ops[0], e, false);
      RunLength(p', rest);
      if j > 0 {
        RegisteredRun(p', rest, e, i - 1, j - 1);
        SurvivesTail(ops, e, i + 1, j);
      }
    }
  }

  // ----- data is opaque -----

  function Relabel(e: Event, f: int -> int): Event { e.(data := f(e.data)) }

  ghost function RelabelAll(events: seq<Event>, f: int -> int): seq<Event>
  {
    if events == [] then [] else
      RelabelAll(events[..|events| - 1], f) + [Relabel(events[|events| - 1], f)]
  }

  lemma {:induction false} RelabelAt(events: seq<Event>, f: int -> int)
    ensures |RelabelAll(events, f)| == |events|
    ensures forall k :: 0 <= k < |events| ==> RelabelAll(events, f)[k] == Relabel(events[k], f)
  {
    if events != [] {
      RelabelAt(events[..|events| - 1], f);
    }
  }

  lemma RelabelOneMore(events: seq<Event>, e: Event, f: int -> int)
    ensures RelabelAll(events + [e], f) == RelabelAll(events, f) + [Relabel(e, f)]
  {
    assert (events + [e])[..|events|] == events;
  }

  function RelabelOp(op: Op, f: int -> int): Op
  {
    if op.On? then On(op.name, op.listener, f(op.data), op.once) else op
  }

  function RelabelOps(ops: seq<Op>, f: int -> int): seq<Op>
  {
    seq(|ops|, k requires 0 <= k < |ops| => RelabelOp(ops[k], f))
  }

  ghost function RelabelOut(out: Out, f: int -> int): Out { Out(out.ok, RelabelAll(out.calls, f)) }

  ghost function RelabelOuts(outs: seq<Out>, f: int -> int): seq<Out>
  {
    seq(|outs|, k requires 0 <= k < |outs| => RelabelOut(outs[k], f))
  }

  ghost function RelabelPlain(p: Plain, f: int -> int): Plain { p.(regs := RelabelAll(p.regs, f)) }

  /** What off and emit do to the list does not depend on the data. */
  lemma {:induction false} RelabelWithout(regs: seq<Event>, w: string, listener: nat, f: int -> int)
    ensures RelabelAll(Without(regs, w, listener), f) == Without(RelabelAll(regs, f), w, listener)
  {
    if regs != [] {
      var init, r := regs[..|regs| - 1], regs[|regs| - 1];
      RelabelWithout(init, w, listener, f);
      OneMore(RelabelAll(init, f), Relabel(r, f), w, listener);
      RelabelOneMore(Without(init, w, listener), r, f);
    }
  }

  lemma {:induction false} RelabelCalled(regs: seq<Event>, w: string, f: int -> int)
    ensures RelabelAll(Called(regs, w), f) == Called(RelabelAll(regs, f), w)
  {
    if regs != [] {
      var init, r := regs[..|regs| - 1], regs[|regs| - 1];
      RelabelCalled(init, w, f);
      OneMore(RelabelAll(init, f), Relabel(r, f), w, 0);
      RelabelOneMore(Called(init, w), r, f);
    }
  }

  lemma {:induction false} RelabelAfterEmit(regs: seq<Event>, w: string, f: int -> int)
    ensures RelabelAll(AfterEmit(regs, w), f) == AfterEmit(RelabelAll(regs, f), w)
  {
    if regs != [] {
      var init, r := regs[..|regs| - 1], regs[|regs| - 1];
      RelabelAfterEmit(init, w, f);
      OneMore(RelabelAll(init, f), Relabel(r, f), w, 0);
      RelabelOneMore(AfterEmit(init, w), r, f);
    }
  }

  lemma RelabelHasName(regs: seq<Event>, w: string, f: int -> int)
    ensures HasName(RelabelAll(regs, f), w) <==> HasName(regs, w)
  {
    RelabelAt(regs, f);
    if k :| 0 <= k < |regs| && regs[k].name == w {
      assert RelabelAll(regs, f)[k].name == w;
    }
  }

  lemma RelabelOn(p: Plain, op: Op, f: int -> int)
    requires op.On?
    ensures RelabelPlain(p, f).Step(RelabelOp(op, f)) == (RelabelPlain(p.Step(op).0, f), RelabelOut(p.Step(op).1, f))
  {
    RelabelAt(p.regs, f);
    RelabelOneMore(p.regs, Event(op.name, op.listener, op.data, op.once), f);
  }

  lemma RelabelOff(p: Plain, op: Op, f: int -> int)
    requires op.Off?
    ensures RelabelPlain(p, f).Step(op) == (RelabelPlain(p.Step(op).0, f), RelabelOut(p.Step(op).1, f))
  {
    RelabelWithout(p.regs, op.name, op.listener, f);
    RelabelHasName(Without(p.regs, op.name, op.listener), op.name, f);
  }

  lemma RelabelEmit(p: Plain, op: Op, f: int -> int)
    requires op.Emit?
    ensures RelabelPlain(p, f).Step(op) == (RelabelPlain(p.Step(op).0, f), RelabelOut(p.Step(op).1, f))
  {
    RelabelCalled(p.regs, op.name, f);
    RelabelAfterEmit(p.regs, op.name, f);
  }

  lemma RelabelStep(p: Plain, op: Op, f: int -> int)
    ensures RelabelPlain(p, f).Step(RelabelOp(op, f)) == (RelabelPlain(p.Step(op).0, f), RelabelOut(p.Step(op).1, f))
  {
    match op
    case On(_, _, _, _) => RelabelOn(p, op, f);
    case Off(_, _) => RelabelOff(p, op, f);
    case Emit(_) => RelabelEmit(p, op, f);
  }

  lemma {:induction false} RelabelRun(p: Plain, ops: seq<Op>, f: int -> int)
    ensures RelabelPlain(p, f).Run(RelabelOps(ops, f)).1 == RelabelOuts(p.Run(ops).1, f)
    decreases |ops|
  {
    if ops != [] {
      RelabelStep(p, ops[0], f);
      var (p', out) := p.Step(ops[0]);
      RelabelRun(p', ops[1..], f);
      RelabelRest(ops, f);
      RelabelOutsFirst(out, p'.Run(ops[1..]).1, f);
    }
  }

  lemma RelabelRest(ops: seq<Op>, f: int -> int)
    requires ops != []
    ensures RelabelOps(ops, f) != [] && RelabelOps(ops, f)[0] == RelabelOp(ops[0], f)
    ensures RelabelOps(ops, f)[1..] == RelabelOps(ops[1..], f)
  {
  }

  lemma RelabelOutsFirst(out: Out, outs: seq<Out>, f: int -> int)
    ensures RelabelOuts([out] + outs, f) == [RelabelOut(out, f)] + RelabelOuts(outs, f)
  {
  }

  /** Changing the data passed in changes the data of the calls, and nothing
      else, in every run of the emitter's rings. */
  lemma DataIsOpaque(maxNames: nat, maxListeners: nat, ops: seq<Op>, f: int -> int)
    requires forall op :: op in ops ==> Named(op)
    ensures Run(Fresh(maxNames, maxListeners), RelabelOps(ops, f)).1
            == RelabelOuts(Run(Fresh(maxNames, maxListeners), ops).1, f)
  {
    var v, p, ops' := Fresh(maxNames, maxListeners), FreshPlain(maxNames, maxListeners), RelabelOps(ops, f);
    forall op | op in ops' ensures Named(op) {
      var k :| 0 <= k < |ops'| && ops'[k] == op;
      assert ops[k] in ops;
    }
    FreshRefines(maxNames, maxListeners);
    RunRefines(v, ops);
    RunRefines(v, ops');
    RelabelRun(p, ops, f);
  }

  // ----- whose call it is -----

  /** The registration that step i asks for, with the step for data. */
  ghost function Mark(ops: seq<Op>, i: nat): Event
    requires i < |ops| && ops[i].On?
  {
    Event(ops[i].name, ops[i].listener, i, ops[i].once)
  }

  /** The same calls, with the step for data. */
  ghost function Marked(ops: seq<Op>): seq<Op>
  {
    seq(|ops|, i requires 0 <= i < |ops| => if ops[i].On? then ops[i].(data := i) else ops[i])
  }

  /** The data that step i really passed. */
  ghost function DataOf(ops: seq<Op>): int -> int
  {
    i => if 0 <= i < |ops| && ops[i].On? then ops[i].data else i
  }

  ghost predicate AllMarks(ops: seq<Op>, events: seq<Event>)
  {
    forall k :: 0 <= k < |events| ==>
      var i := events[k].data; 0 <= i < |ops| && ops[i].On? && events[k] == Mark(ops, i)
  }

  lemma AllMarksSubset(ops: seq<Op>, events: seq<Event>, part: seq<Event>)
    requires AllMarks(ops, events) && forall e :: e in part ==> e in events
    ensures AllMarks(ops, part)
  {
    forall k | 0 <= k < |part|
      ensures var i := part[k].data; 0 <= i < |ops| && ops[i].On? && part[k] == Mark(ops, i)
    {
      assert part[k] in events;
      var m :| 0 <= m < |events| && events[m] == part[k];
    }
  }

  /** A marked call keeps the marks. */
  lemma MarkedStep(ops: seq<Op>, p: Plain, i: nat)
    requires AllMarks(ops, p.regs) && i < |ops|
    ensures AllMarks(ops, p.Step(Marked(ops)[i]).0.regs) && AllMarks(ops, p.Step(Marked(ops)[i]).1.calls)
  {
    match Marked(ops)[i]
    case On(w, listener, data, once) =>
    case Off(w, listener) =>
      WithoutMembers(p.regs, w, listener);
      AllMarksSubset(ops, p.regs, Without(p.regs, w, listener));
    case Emit(w) =>
      AfterEmitMembers(p.regs, w);
      CalledMembers(p.regs, w);
      AllMarksSubset(ops, p.regs, AfterEmit(p.regs, w));
      AllMarksSubset(ops, p.regs, Called(p.regs, w));
  }

  /** A run of marked calls calls marked registrations only. */
  lemma {:induction false} CallsAreMarks(ops: seq<Op>, p: Plain, from: nat, j: nat)
    requires AllMarks(ops, p.regs) && from <= j < |ops|
    ensures |p.Run(Marked(ops)[from..]).1| == |ops| - from
    ensures AllMarks(ops, p.Run(Marked(ops)[from..]).1[j - from].calls)
    decreases |ops| - from
  {
    var rest := Marked(ops)[from..];
    FirstOfRun(p, rest);
    MarkedStep(ops, p, from);
    if from < j {
      assert rest[1..] == Marked(ops)[from + 1..];
      CallsAreMarks(ops, p.Step(rest[0]).0, from + 1, j);
    }
  }

  /** The run with marks is the run itself, with marks for data. */
  lemma MarkedRun(maxNames: nat, maxListeners: nat, ops: seq<Op>)
    requires forall op :: op in ops ==> Named(op)
    ensures forall op :: op in Marked(ops) ==> Named(op)
    ensures var outs := Run(Fresh(maxNames, maxListeners), ops).1;
            var marks := Run(Fresh(maxNames, maxListeners), Marked(ops)).1;
            && |outs| == |marks| == |ops| && outs == RelabelOuts(marks, DataOf(ops))
            && marks == FreshPlain(maxNames, maxListeners).Run(Marked(ops)).1
  {
    var marked := Marked(ops);
    forall op | op in marked ensures Named(op) {
      var k :| 0 <= k < |marked| && marked[k] == op;
      assert ops[k] in ops;
    }
    assert RelabelOps(marked, DataOf(ops)) == ops;
    DataIsOpaque(maxNames, maxListeners, marked, DataOf(ops));
    FreshRefines(maxNames, maxListeners);
    RunRefines(Fresh(maxNames, maxListeners), marked);
    RunLength(FreshPlain(maxNames, maxListeners), marked);
  }

  /** Marks do not show in what ends and what calls a registration. */
  lemma MarkedSame(ops: seq<Op>, e: Event, from: nat, j: nat)
    requires j < |ops|
    ensures Survives(Marked(ops), e, from, j) <==> Survives(ops, e, from, j)
    ensures forall pending :: Expected(pending, Marked(ops)[j], e) == Expected(pending, ops[j], e)
  {
    assert forall k :: 0 <= k < |ops| ==> (Ends(Marked(ops)[k], e) <==> Ends(ops[k], e));
  }

  /** Over every run, whatever data is passed: step j calls the registration
      asked for at step i, once, exactly if it was granted, step j emits its
      name, and it has not ended in between; slot reuse, rotation and
      compaction never lose or revive it. */
  lemma CalledExactly(maxNames: nat, maxListeners: nat, ops: seq<Op>, i: nat, j: nat)
    requires forall op :: op in ops ==> Named(op)
    requires i < |ops| && j < |ops| && ops[i].On?
    ensures var outs := Run(Fresh(maxNames, maxListeners), ops).1;
            var marks := Run(Fresh(maxNames, maxListeners), Marked(ops)).1;
            && |outs| == |marks| == |ops| && outs == RelabelOuts(marks, DataOf(ops))
            && Tagged(marks[j].calls, i)
               == Expected(i < j && outs[i].ok && Survives(ops, Mark(ops, i), i + 1, j), ops[j], Mark(ops, i))
  {
    var marked, e := Marked(ops), Mark(ops, i);
    MarkedRun(maxNames, maxListeners, ops);
    RegisteredRun(FreshPlain(maxNames, maxListeners), marked, e, i, j);
    MarkedSame(ops, e, i + 1, j);
  }

  /** Every call belongs to one earlier registration that was granted, and
      passes on its name, listener, data and once. */
  lemma CallOrigin(maxNames: nat, maxListeners: nat, ops: seq<Op>, j: nat, k: nat)
    requires forall op :: op in ops ==> Named(op)
    requires j < |ops| && j < |Run(Fresh(maxNames, maxListeners), ops).1|
    requires k < |Run(Fresh(maxNames, maxListeners), ops).1[j].calls|
    ensures var outs := Run(Fresh(maxNames, maxListeners), ops).1;
            var marks := Run(Fresh(maxNames, maxListeners), Marked(ops)).1;
            && |outs| == |marks| == |ops| && |marks[j].calls| == |outs[j].calls|
            && var i := marks[j].calls[k].data;
               && 0 <= i < j && ops[i].On? && outs[i].ok
               && outs[j].calls[k] == Event(ops[i].name, ops[i].listener, ops[i].data, ops[i].once)
  {
    MarkedRun(maxNames, maxListeners, ops);
    var marks := Run(Fresh(maxNames, maxListeners), Marked(ops)).1;
    assert Marked(ops)[0..] == Marked(ops);
    CallsAreMarks(ops, FreshPlain(maxNames, maxListeners), 0, j);
    RelabelAt(marks[j].calls, DataOf(ops));
    var i := marks[j].calls[k].data;
    CalledExactly(maxNames, maxListeners, ops, i, j);
    TaggedSubset(marks[j].calls, i);
    assert marks[j].calls[k] in Tagged(marks[j].calls, i);
  }

  /** A once registration is called by the first emit of its name after it,
      unless an off has removed it before, and by nothing else. */
  lemma OnceExactly(maxNames: nat, maxListeners: nat, ops: seq<Op>, i: nat, j: nat)
    requires forall op :: op in ops ==> Named(op)
    requires i < |ops| && j < |ops| && ops[i].On? && ops[i].once
    ensures var outs := Run(Fresh(maxNames, maxListeners), ops).1;
            var marks := Run(Fresh(maxNames, maxListeners), Marked(ops)).1;
            && |outs| == |marks| == |ops| && outs == RelabelOuts(marks, DataOf(ops))
            && |Tagged(marks[j].calls, i)| <= 1
            && (Tagged(marks[j].calls, i) != [] <==>
                 && i < j && outs[i].ok && ops[i].listener != 0 && ops[j] == Emit(ops[i].name)
                 && forall k :: i < k < j ==>
                      ops[k] != Emit(ops[i].name) && ops[k] != Off(ops[i].name, ops[i].listener))
  {
    CalledExactly(maxNames, maxListeners, ops, i, j);
  }

  /** It is called at most once in the whole run. */
  lemma OnceAtMost(maxNames: nat, maxListeners: nat, ops: seq<Op>, i: nat, j1: nat, j2: nat)
    requires forall op :: op in ops ==> Named(op)
    requires i < |ops| && j1 < |ops| && j2 < |ops| && ops[i].On? && ops[i].once
    ensures var marks := Run(Fresh(maxNames, maxListeners), Marked(ops)).1;
            && |marks| == |ops|
            && |Tagged(marks[j1].calls, i)| <= 1
            && (Tagged(marks[j1].calls, i) != [] && Tagged(marks[j2].calls, i) != [] ==> j1 == j2)
  {
    OnceExactly(maxNames, maxListeners, ops, i, j1);
    OnceExactly(maxNames, maxListeners, ops, i, j2);
  }
}
