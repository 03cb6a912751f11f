/** What the emitter is meant to be: a set of registered names and one plain
    list of registrations, with no slots, pointers or tombstones. */
module PlainEmitter {
  import opened EventModel

  ghost predicate HasName(regs: seq<Event>, w: string)
  {
    exists k :: 0 <= k < |regs| && regs[k].name == w
  }

  /** The list without the registrations of one listener under one name. */
  ghost function Without(regs: seq<Event>, w: string, listener: nat): seq<Event>
  {
    if regs == [] then [] else
      var r := regs[|regs| - 1];
      var left := Without(regs[..|regs| - 1], w, listener);
      if r.name == w && r.listener == listener then left else left + [r]
  }

  /** The registrations that an emit of w calls, in registration order. */
  ghost function Called(regs: seq<Event>, w: string): seq<Event>
  {
    if regs == [] then [] else
      var r := regs[|regs| - 1];
      var called := Called(regs[..|regs| - 1], w);
      if r.name == w && r.listener != 0 then called + [r] else called
  }

  /** The list after an emit of w: its once registrations are gone. */
  ghost function AfterEmit(regs: seq<Event>, w: string): seq<Event>
  {
    if regs == [] then [] else
      var r := regs[|regs| - 1];
      var left := AfterEmit(regs[..|regs| - 1], w);
      if r.name == w && r.once then left else left + [r]
  }

  /** One more registration at the end of the list. */
  lemma OneMore(regs: seq<Event>, r: Event, w: string, listener: nat)
    ensures Without(regs + [r], w, listener)
            == if r.name == w && r.listener == listener then Without(regs, w, listener)
               else Without(regs, w, listener) + [r]
    ensures Called(regs + [r], w)
            == if r.name == w && r.listener != 0 then Called(regs, w) + [r] else Called(regs, w)
    ensures AfterEmit(regs + [r], w)
            == if r.name == w && r.once then AfterEmit(regs, w) else AfterEmit(regs, w) + [r]
    ensures HasName(regs + [r], w) <==> HasName(regs, w) || r.name == w
  {
    var more := regs + [r];
    assert more[..|more| - 1] == regs && more[|more| - 1] == r;
    HasNameOneMore(regs, r, w);
  }

  lemma HasNameOneMore(regs: seq<Event>, r: Event, w: string)
    ensures HasName(regs + [r], w) <==> HasName(regs, w) || r.name == w
  {
    var more := regs + [r];
    assert more[|regs|] == r;
    if k :| 0 <= k < |regs| && regs[k].name == w {
      assert more[k].name == w;
    }
  }

  datatype Plain = Plain(maxNames: nat, maxListeners: nat, registered: set<string>, regs: seq<Event>)
  {
    ghost function Step(op: Op): (Plain, Out)
    {
      match op
      case On(w, listener, data, once) =>
        if |w| > 15 || (w !in registered && |registered| >= maxNames) then (this, Out(false, []))
        else
          var named := this.(registered := registered + {w});
          if |regs| >= maxListeners then (named, Out(false, []))
          else (named.(regs := regs + [Event(w, listener, data, once)]), Out(true, []))
      case Off(w, listener) =>
        if w !in registered then (this, Out(false, []))
        else
          var left := Without(regs, w, listener);
          (Plain(maxNames, maxListeners, if HasName(left, w) then registered else registered - {w}, left),
           Out(true, []))
      case Emit(w) =>
        if w !in registered then (this, Out(false, []))
        else (this.(regs := AfterEmit(regs, w)), Out(true, Called(regs, w)))
    }

    ghost function Run(ops: seq<Op>): (Plain, seq<Out>)
      decreases |ops|
    {
      if ops == [] then (this, []) else
        var (p1, out) := Step(ops[0]);
        var (p2, outs) := p1.Run(ops[1..]);
        (p2, [out] + outs)
    }
  }

  /** Every registration's name is registered, and both bounds hold. */
  ghost predicate Sound(p: Plain)
  {
    && (forall k :: 0 <= k < |p.regs| ==> p.regs[k].name in p.registered)
    && |p.registered| <= p.maxNames && |p.regs| <= p.maxListeners
  }

  lemma {:induction false} WithoutMembers(regs: seq<Event>, w: string, listener: nat)
    ensures |Without(regs, w, listener)| <= |regs|
    ensures forall r :: r in Without(regs, w, listener) <==> r in regs && !(r.name == w && r.listener == listener)
  {
    if regs != [] {
      WithoutMembers(regs[..|regs| - 1], w, listener);
    }
  }

  lemma {:induction false} AfterEmitMembers(regs: seq<Event>, w: string)
    ensures |AfterEmit(regs, w)| <= |regs|
    ensures forall r :: r in AfterEmit(regs, w) <==> r in regs && !(r.name == w && r.once)
  {
    if regs != [] {
      AfterEmitMembers(regs[..|regs| - 1], w);
    }
  }

  lemma {:induction false} CalledMembers(regs: seq<Event>, w: string)
    ensures forall r :: r in Called(regs, w) <==> r in regs && r.name == w && r.listener != 0
  {
    if regs != [] {
      CalledMembers(regs[..|regs| - 1], w);
    }
  }

  lemma StepSound(p: Plain, op: Op)
    requires Sound(p)
    ensures Sound(p.Step(op).0)
  {
    match op
    case On(w, listener, data, once) =>
    case Off(w, listener) =>
      WithoutMembers(p.regs, w, listener);
      var left := Without(p.regs, w, listener);
      forall k | 0 <= k < |left| ensures left[k].name in p.Step(op).0.registered {
        assert left[k] in left;
      }
    case Emit(w) =>
      AfterEmitMembers(p.regs, w);
      var left := AfterEmit(p.regs, w);
      forall k | 0 <= k < |left| ensures left[k].name in p.registered {
        assert left[k] in left;
      }
  }

  ghost function FreshPlain(maxNames: nat, maxListeners: nat): Plain
  {
    Plain(maxNames, maxListeners, {}, [])
  }
}
