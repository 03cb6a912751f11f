/** Where the listener ring stands, and when its compaction as written is
    harmless: pop steps back from the tail without the wrap of last(), so it
    must not have to pass begin. */
module Compaction {
  import opened ControlBlock
  import opened EventModel

  /** Number of tombstones at the end of the ring. */
  function TrailingDead(bs: seq<EventBlock>): (n: nat)
    ensures n <= |bs|
  {
    if bs == [] || bs[|bs| - 1].name != NULL then 0 else 1 + TrailingDead(bs[..|bs| - 1])
  }

  /** Number of blocks the tail trim pops; if nothing is live, the head trim has
      emptied the ring before. */
  function TailDrops(bs: seq<EventBlock>): (n: nat)
    ensures n <= |bs|
  {
    if Live(bs) == [] then 0 else TrailingDead(bs)
  }

  /** A call that finds the listener ring full and compacts it. */
  predicate Compacts(v: View, op: Op)
  {
    && op.On? && |op.name| <= EVENT_NAME_LENGTH_MAX
    && v.Register(op.name).1 < |v.Register(op.name).0|
    && |v.blocks| >= v.maxListeners
  }

  /** The slot of the head after a call, from the slot h before it. */
  function HeadAfter(v: View, h: nat, op: Op): (h': nat)
    requires |v.blocks| <= v.maxListeners && h <= v.maxListeners
    ensures h' <= v.maxListeners
  {
    var n := v.maxListeners + 1;
    if op.Off? && Index(v.names, op.name) < |v.names| then Plus(h, |v.blocks|, n)
    else if Compacts(v, op) then Plus(h, |v.blocks| - TailDrops(v.blocks), n)
    else h
  }

  /** The compaction of this call, if any, pops no more blocks than the tail
      stands slots past begin. */
  predicate StepSafe(v: View, h: nat, op: Op)
    requires |v.blocks| <= v.maxListeners && h <= v.maxListeners
  {
    Compacts(v, op) ==> TailDrops(v.blocks) <= Plus(h, |v.blocks|, v.maxListeners + 1)
  }

  /** Every compaction of a run is safe. */
  ghost predicate RunSafe(v: View, h: nat, ops: seq<Op>)
    requires v.WellFormed() && h <= v.maxListeners
    decreases |ops|
  {
    ops != [] ==>
      && StepSafe(v, h, ops[0])
      && (StepKeepsWellFormed(v, ops[0]); RunSafe(v.Step(ops[0]).0, HeadAfter(v, h, ops[0]), ops[1..]))
  }

  // ----- the trims -----

  lemma {:induction false} LiveConcat(a: seq<EventBlock>, b: seq<EventBlock>)
    ensures Live(a + b) == Live(a) + Live(b)
  {
    if b == [] {
      assert a + b == a;
    } else {
      assert (a + b)[..|a + b| - 1] == a + b[..|b| - 1];
      LiveConcat(a, b[..|b| - 1]);
    }
  }

  lemma {:induction false} FirstDead(bs: seq<EventBlock>, rest: seq<EventBlock>)
    requires bs != [] && bs[0].name == NULL && bs == [bs[0]] + rest
    ensures Live(rest) == Live(bs) && TailDrops(rest) == TailDrops(bs)
  {
    LiveConcat([bs[0]], rest);
    if rest != [] && rest[|rest| - 1].name == NULL {
      assert bs[..|bs| - 1] == [bs[0]] + rest[..|rest| - 1];
      FirstDead(bs[..|bs| - 1], rest[..|rest| - 1]);
    }
  }

  lemma FirstLive(bs: seq<EventBlock>)
    requires bs != [] && bs[0].name != NULL
    ensures Live(bs) != []
  {
    LiveSubset(bs);
    assert bs[0] in Live(bs);
  }

  lemma LastDead(bs: seq<EventBlock>, rest: seq<EventBlock>, b: EventBlock)
    requires bs == rest + [b]
    ensures b.name == NULL ==> Live(rest) == Live(bs) && TrailingDead(bs) == TrailingDead(rest) + 1
    ensures b.name != NULL ==> TrailingDead(bs) == 0
  {
    assert bs[..|bs| - 1] == rest;
  }

  /** From the same tail, going back d of k items or of m items leads to the
      same slot. */
  lemma SameTail(h: nat, k: nat, g: nat, m: nat, d: nat, n: nat)
    requires h < n && g < n && d <= m <= k < n && Plus(h, k, n) == Plus(g, m, n)
    ensures Plus(h, k - d, n) == Plus(g, m - d, n)
  {
  }
}
