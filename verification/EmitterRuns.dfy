/** Whole runs of the emitter object, from construction on. */
module EmitterRuns {
  import opened Words
  import opened ControlBlock
  import opened EventModel
  import opened Compaction
  import opened EventEmitters
  import opened PlainEmitter
  import opened EventRefinement

  method Perform(e: EventEmitter, op: Op) returns (out: Out)
    requires e.Valid()
    modifies e.m_names, e.m_names.buffer, e.m_listeners, e.m_listeners.buffer
    ensures e.Valid()
    ensures (e.View(), out) == old(e.View().Step(op))
  {
    var ok, calls := false, [];
    match op {
      case On(w, listener, data, once) => ok := e.OnWrapped(w, listener, data, once);
      case Off(w, listener) => ok := e.Off(w, listener);
      case Emit(w) => ok, calls := e.Emit(w);
    }
    out := Out(ok, calls);
  }

  lemma RunStep(v: View, ops: seq<Op>)
    requires v.WellFormed() && ops != []
    ensures var (v', out) := v.Step(ops[0]);
            v'.WellFormed() && Run(v, ops).1 == [out] + Run(v', ops[1..]).1
  {
    StepKeepsWellFormed(v, ops[0]);
  }

  method PerformAll(e: EventEmitter, ops: seq<Op>) returns (outs: seq<Out>)
    requires e.Valid()
    modifies e.m_names, e.m_names.buffer, e.m_listeners, e.m_listeners.buffer
    ensures e.Valid()
    ensures outs == old(Run(e.View(), ops).1)
  {
    if ops == [] {
      return [];
    }
    RunStep(e.View(), ops);
    var out := Perform(e, ops[0]);
    var rest := PerformAll(e, ops[1..]);
    outs := [out] + rest;
  }

  /** A client that makes any sequence of calls on a new emitter sees exactly
      the return values and the listener calls of the plain list, as long as
      it uses no empty name. */
  method Replay(maxNames: nat, maxListeners: nat, ops: seq<Op>) returns (outs: seq<Out>)
    requires maxNames < U32 && maxListeners < U32 && RingsFit(maxNames, maxListeners)
    ensures outs == Run(Fresh(maxNames, maxListeners), ops).1
    ensures (forall op :: op in ops ==> Named(op)) ==> outs == FreshPlain(maxNames, maxListeners).Run(ops).1
  {
    if forall op :: op in ops ==> Named(op) {
      FreshRefines(maxNames, maxListeners);
      RunRefines(Fresh(maxNames, maxListeners), ops);
    }
    var e := new EventEmitter(maxNames, maxListeners);
    outs := PerformAll(e, ops);
  }

  /** A name is accepted by a new emitter with room exactly if it has at most 15
      characters. */
  method FirstOn(maxNames: nat, maxListeners: nat, w: string, listener: nat, data: int, once: bool) returns (ok: bool)
    requires maxNames < U32 && maxListeners < U32 && RingsFit(maxNames, maxListeners)
    requires w != ""
    ensures ok <==> |w| <= 15 && maxNames > 0 && maxListeners > 0
  {
    FirstName(maxNames, maxListeners, w, listener, data, once);
    var e := new EventEmitter(maxNames, maxListeners);
    var safe;
    ok, safe := e.On(w, listener, data, once);
  }

  // ----- the emitter as written -----

  /** Only a registration compacts, and only off moves the head. */
  lemma QuietCalls(v: View, h: nat, op: Op)
    requires v.WellFormed() && h <= v.maxListeners && !op.On?
    ensures StepSafe(v, h, op)
    ensures HeadAfter(v, h, op)
            == if op.Off? && v.Step(op).1.ok then Plus(h, |v.blocks|, v.maxListeners + 1) else h
  {
  }

  /** One call with the compaction of the code; safe says that no access has
      left the slots. */
  method PerformWritten(e: EventEmitter, op: Op) returns (out: Out, safe: bool)
    requires e.Valid() && e.m_listeners.headSlot <= e.m_listeners.capacity
    modifies e.m_names, e.m_names.buffer, e.m_listeners, e.m_listeners.buffer
    ensures safe <==> old(StepSafe(e.View(), e.m_listeners.headSlot, op))
    ensures safe ==> e.Valid() && (e.View(), out) == old(e.View().Step(op))
    ensures safe ==>
      e.m_listeners.headSlot == old(HeadAfter(e.View(), e.m_listeners.headSlot, op)) <= e.m_listeners.capacity
  {
    ghost var v, h := e.View(), e.m_listeners.headSlot;
    var ok, calls := false, [];
    safe := true;
    if !op.On? {
      QuietCalls(v, h, op);
    }
    match op {
      case On(w, listener, data, once) => ok, safe := e.On(w, listener, data, once);
      case Off(w, listener) => ok := e.Off(w, listener);
      case Emit(w) => ok, calls := e.Emit(w);
    }
    out := Out(ok, calls);
  }

  method PerformAllWritten(e: EventEmitter, ops: seq<Op>) returns (outs: seq<Out>, safe: bool)
    requires e.Valid() && e.m_listeners.headSlot <= e.m_listeners.capacity
    modifies e.m_names, e.m_names.buffer, e.m_listeners, e.m_listeners.buffer
    ensures safe <==> old(RunSafe(e.View(), e.m_listeners.headSlot, ops))
    ensures safe ==> outs == old(Run(e.View(), ops).1)
  {
    if ops == [] {
      return [], true;
    }
    RunStep(e.View(), ops);
    var out, first := PerformWritten(e, ops[0]);
    if !first {
      return [], false;
    }
    var rest;
    rest, safe := PerformAllWritten(e, ops[1..]);
    outs := [out] + rest;
  }

  /** The emitter as written behaves as the plain list over a whole run if
      every compaction of the run is safe, and leaves its slots if one is not;
      which of the two it is follows from the calls alone. */
  method ReplayWritten(maxNames: nat, maxListeners: nat, ops: seq<Op>) returns (outs: seq<Out>, safe: bool)
    requires maxNames < U32 && maxListeners < U32 && RingsFit(maxNames, maxListeners)
    ensures safe <==> RunSafe(Fresh(maxNames, maxListeners), 0, ops)
    ensures safe && (forall op :: op in ops ==> Named(op)) ==> outs == FreshPlain(maxNames, maxListeners).Run(ops).1
  {
    if forall op :: op in ops ==> Named(op) {
      FreshRefines(maxNames, maxListeners);
      RunRefines(Fresh(maxNames, maxListeners), ops);
    }
    var e := new EventEmitter(maxNames, maxListeners);
    outs, safe := PerformAllWritten(e, ops);
  }

  // ----- a run that is not safe -----

  const A: EventBlock := EventBlock(20, 1, 0, false)
  const B: EventBlock := EventBlock(36, 2, 0, true)
  const BURIED: EventBlock := EventBlock(NULL, 2, 0, true)

  lemma TwoRegistered()
    ensures Fresh(10, 2).On("a", 1, 0, false) == (View(10, 2, ["a"], [A]), true)
    ensures View(10, 2, ["a"], [A]).On("b", 2, 0, true) == (View(10, 2, ["a", "b"], [A, B]), true)
  {
    assert [] + ["a"] == ["a"] && [] + [A] == [A];
    assert Fresh(10, 2).Register("a") == ([] + ["a"], 0);
    assert Index(["a"], "b") == 1 && Index(["a"], "") == 1 by { assert "a"[0] == 'a'; assert "b"[0] == 'b'; }
    assert ["a"] + ["b"] == ["a", "b"] && [A] + [B] == [A, B];
  }

  lemma OffKeepsBoth()
    ensures View(10, 2, ["a", "b"], [A, B]).Off("a", 3) == (View(10, 2, ["a", "b"], [A, B]), true)
  {
    KeptFirst([A, B], 0, 20, 3);
    KeptFirst([A, B], 1, 20, 3);
    assert [A, B][..0] == [] && [A, B][..1] == [A] && [A, B][..2] == [A, B];
    assert [] + [A] == [A] && [A] + [B] == [A, B];
    assert Uses([A], 20) == 1 by { assert [A][..0] == []; }
    assert Index(["a", "b"], "a") == 0;
  }

  lemma EmitBuriesB()
    ensures View(10, 2, ["a", "b"], [A, B]).Emit("b").0 == View(10, 2, ["a", "b"], [A, BURIED])
    ensures TailDrops([A, BURIED]) == 1
  {
    assert Index(["a", "b"], "b") == 1;
    assert Fired([A, B], 36) == [A, BURIED];
    assert [A, BURIED][..1] == [A] && TrailingDead([A]) == 0;
    FirstLive([A, BURIED]);
    assert TrailingDead([A, BURIED]) == 1 + TrailingDead([A]);
  }

  lemma ThirdCompacts()
    ensures Compacts(View(10, 2, ["a", "b"], [A, BURIED]), On("c", 4, 0, false))
  {
    var v := View(10, 2, ["a", "b"], [A, BURIED]);
    assert "a"[0] == 'a' && "b"[0] == 'b' && "c"[0] == 'c';
    assert Index(v.names, "c") == 2 && Index(v.names, "") == 2;
  }

  /** The head on slot 1 of three, the tail is at begin: the emit buries the
      last block and the registration compacts. */
  lemma LastCallsFail(ops: seq<Op>)
    requires ops == [Emit("b"), On("c", 4, 0, false)]
    ensures !RunSafe(View(10, 2, ["a", "b"], [A, B]), 1, ops)
  {
    EmitBuriesB();
    ThirdCompacts();
    var w := View(10, 2, ["a", "b"], [A, BURIED]);
    assert !StepSafe(w, 1, ops[1]);
    assert ops[1..] == [ops[1]];
  }

  lemma UnsafeStep(v: View, h: nat, ops: seq<Op>, v': View, h': nat)
    requires v.WellFormed() && v'.WellFormed() && h <= v.maxListeners && h' <= v'.maxListeners
    requires ops != [] && v.Step(ops[0]).0 == v' && HeadAfter(v, h, ops[0]) == h' && !RunSafe(v', h', ops[1..])
    ensures !RunSafe(v, h, ops)
  {
  }

  /** Each off rotates the ring by its two blocks. */
  lemma OffRotates(h: nat)
    requires h <= 2
    ensures HeadAfter(View(10, 2, ["a", "b"], [A, B]), h, Off("a", 3)) == Plus(h, 2, 3)
  {
    assert Index(["a", "b"], "a") == 0;
  }

  lemma RotationsFail(ops: seq<Op>)
    requires ops == [Off("a", 3), Off("a", 3), Emit("b"), On("c", 4, 0, false)]
    ensures !RunSafe(View(10, 2, ["a", "b"], [A, B]), 0, ops)
  {
    var v := View(10, 2, ["a", "b"], [A, B]);
    OffKeepsBoth();
    OffRotates(0);
    OffRotates(2);
    var rest := ops[1..];
    assert rest[1..] == [ops[2], ops[3]];
    LastCallsFail(rest[1..]);
    UnsafeStep(v, 2, rest, v, 1);
    UnsafeStep(v, 0, ops, v, 2);
  }

  lemma SecondFails(ops: seq<Op>)
    requires ops == [On("b", 2, 0, true), Off("a", 3), Off("a", 3), Emit("b"), On("c", 4, 0, false)]
    ensures !RunSafe(View(10, 2, ["a"], [A]), 0, ops)
  {
    TwoRegistered();
    assert ops[1..] == [ops[1], ops[2], ops[3], ops[4]];
    RotationsFail(ops[1..]);
  }

  /** With room for two listeners, two rotations bring the tail to begin while
      the tombstone of b is the last block, and the next registration
      compacts. */
  lemma WrittenRunFails()
    ensures !RunSafe(Fresh(10, 2), 0,
      [On("a", 1, 0, false), On("b", 2, 0, true), Off("a", 3), Off("a", 3), Emit("b"), On("c", 4, 0, false)])
  {
    var ops := [On("a", 1, 0, false), On("b", 2, 0, true), Off("a", 3), Off("a", 3), Emit("b"), On("c", 4, 0, false)];
    TwoRegistered();
    assert ops[1..] == [ops[1], ops[2], ops[3], ops[4], ops[5]];
    SecondFails(ops[1..]);
  }
}
