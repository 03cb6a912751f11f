/** Whole runs of the circular queue against a bounded double-ended queue:
    with the free-slot and wrap conventions of put, get, is_full and last()
    every run is one of the deque; with push and pop as they are written, a run
    is one of the deque exactly while their domain is respected. */
module Deques {
  import opened Options
  import opened Words
  import opened ControlBlock
  import opened Ring

  /** An item is None for a null pointer; a caller of Get or Pop without a place
      for the item discards it. */
  datatype Op<T> = Put(item: Option<T>) | Get | Push(item: Option<T>) | Pop | Clear

  /** What a caller sees; Stray means that head or tail has left the slots. */
  datatype Result<T> = Accepted | Refused | Taken(item: T) | Empty | Cleared | Stray

  // ----- the bounded deque -----

  /** The items, and the unused cells behind them: a null item appends or
      prepends what the cell it takes has held.  Clear goes back to the cell that
      came first, `turn` cells ago. */
  datatype Deque<T> = Deque(items: seq<T>, spare: seq<T>, turn: nat)
  {
    predicate Sound() { turn < |items| + |spare| && spare != [] }

    function Capacity(): int { |items| + |spare| - 1 }

    function Step(op: Op<T>): (Deque<T>, Result<T>)
      requires Sound()
    {
      match op
      case Put(x) =>
        if |items| == Capacity() then (this, Refused)
        else (Deque(items + [x.GetOr(spare[0])], spare[1..], turn), Accepted)
      case Push(x) =>
        var last := |spare| - 1;
        if |items| == Capacity() then (this, Refused)
        else (Deque([x.GetOr(spare[last])] + items, spare[..last], Pred(turn, Capacity() + 1)), Accepted)
      case Get =>
        if items == [] then (this, Empty)
        else (Deque(items[1..], spare + [items[0]], Succ(turn, Capacity() + 1)), Taken(items[0]))
      case Pop =>
        var last := |items| - 1;
        if items == [] then (this, Empty)
        else (Deque(items[..last], [items[last]] + spare, turn), Taken(items[last]))
      case Clear =>
        var cells, back := items + spare, Capacity() + 1 - turn;
        (Deque([], cells[back..] + cells[..back], 0), Cleared)
    }

    ghost function Run(ops: seq<Op<T>>): (Deque<T>, seq<Result<T>>)
      requires Sound()
      decreases |ops|
    {
      if ops == [] then (this, []) else
        var (d1, result) := Step(ops[0]);
        var (d2, results) := d1.Run(ops[1..]);
        (d2, [result] + results)
    }
  }
  lemma SpareHiddenStep<T>(d: Deque<T>, e: Deque<T>, op: Op<T>)
    requires d.Sound() && e.Sound() && d.items == e.items && |d.spare| == |e.spare|
    requires op.Put? || op.Push? ==> op.item.Some?
    ensures var (d', result) := d.Step(op);
            var (e', result') := e.Step(op);
            d'.Sound() && e'.Sound() && d'.items == e'.items && |d'.spare| == |e'.spare| && result == result'
  {
  }

  /** As long as every call passes an item, the spare cells never show. */
  lemma {:induction false} SpareIsHidden<T>(d: Deque<T>, e: Deque<T>, ops: seq<Op<T>>)
    requires d.Sound() && e.Sound() && d.items == e.items && |d.spare| == |e.spare|
    requires forall op :: op in ops && (op.Put? || op.Push?) ==> op.item.Some?
    ensures d.Run(ops).0.items == e.Run(ops).0.items && d.Run(ops).1 == e.Run(ops).1
    decreases |ops|
  {
    if ops != [] {
      assert ops[0] in ops;
      SpareHiddenStep(d, e, ops[0]);
      SpareIsHidden(d.Step(ops[0]).0, e.Step(ops[0]).0, ops[1..]);
    }
  }

  // ----- the ring -----

  ghost function AsDeque<T>(r: Ring<T>): Deque<T>
    requires r.WellFormed()
  {
    Deque(r.Contents(), Free(r.slots, r.h, r.t), r.h)
  }

  lemma AsDequeSound<T>(r: Ring<T>)
    requires r.WellFormed()
    ensures AsDeque(r).Sound() && AsDeque(r).Capacity() == r.Capacity()
  {
    ContentsCount(r);
    FreeCount(r.slots, r.h, r.t);
  }

  ghost function RingStep<T>(r: Ring<T>, op: Op<T>): (Ring<T>, Result<T>)
    requires r.WellFormed()
  {
    match op
    case Put(x) => var (r', ok) := r.Put(x); (r', if ok then Accepted else Refused)
    case Push(x) => var (r', ok) := r.Push(x); (r', if ok then Accepted else Refused)
    case Get => var (r', item) := r.Get(); (r', if item.Some? then Taken(item.value) else Empty)
    case Pop => var (r', item) := r.Pop(); (r', if item.Some? then Taken(item.value) else Empty)
    case Clear => (r.Clear(), Cleared)
  }

  lemma RingStepRefines<T>(r: Ring<T>, op: Op<T>)
    requires r.WellFormed()
    ensures var (r', result) := RingStep(r, op);
            && r'.WellFormed() && r'.Capacity() == r.Capacity() && AsDeque(r).Sound()
            && (AsDeque(r'), result) == AsDeque(r).Step(op)
  {
    AsDequeSound(r);
    ContentsCount(r);
    match op
    case Put(x) => PutRefines(r, x);
    case Push(x) => PushRefines(r, x);
    case Get => GetRefines(r);
    case Pop => PopRefines(r);
    case Clear =>
      ClearEmpties(r);
      ClearCells(r.slots, r.h, r.t);
  }

  lemma PutRefines<T>(r: Ring<T>, x: Option<T>)
    requires r.WellFormed()
    ensures var (r', result) := RingStep(r, Op.Put(x));
            && r'.WellFormed() && r'.Capacity() == r.Capacity() && AsDeque(r).Sound()
            && (AsDeque(r'), result) == AsDeque(r).Step(Op.Put(x))
  {
    AsDequeSound(r);
    PutAppends(r, x);
    if |r.Contents()| < r.Capacity() {
      FreeAppend(r.slots, r.h, r.t, x.GetOr(r.slots[r.t]));
    }
  }

  lemma PushRefines<T>(r: Ring<T>, x: Option<T>)
    requires r.WellFormed()
    ensures var (r', result) := RingStep(r, Op.Push(x));
            && r'.WellFormed() && r'.Capacity() == r.Capacity() && AsDeque(r).Sound()
            && (AsDeque(r'), result) == AsDeque(r).Step(Op.Push(x))
  {
    AsDequeSound(r);
    PushPrepends(r, x);
    if |r.Contents()| < r.Capacity() {
      FreePrepend(r.slots, r.h, r.t, x.GetOr(r.slots[Pred(r.h, |r.slots|)]));
    }
  }

  lemma GetRefines<T>(r: Ring<T>)
    requires r.WellFormed()
    ensures var (r', result) := RingStep(r, Op.Get);
            && r'.WellFormed() && r'.Capacity() == r.Capacity() && AsDeque(r).Sound()
            && (AsDeque(r'), result) == AsDeque(r).Step(Op.Get)
  {
    AsDequeSound(r);
    ContentsCount(r);
    GetTakesHead(r);
    if r.Contents() != [] {
      FreeDropFirst(r.slots, r.h, r.t);
    }
  }

  lemma PopRefines<T>(r: Ring<T>)
    requires r.WellFormed()
    ensures var (r', result) := RingStep(r, Op.Pop);
            && r'.WellFormed() && r'.Capacity() == r.Capacity() && AsDeque(r).Sound()
            && (AsDeque(r'), result) == AsDeque(r).Step(Op.Pop)
  {
    AsDequeSound(r);
    ContentsCount(r);
    PopTakesLast(r);
    if r.Contents() != [] {
      FreeDropLast(r.slots, r.h, r.t);
    }
  }

  ghost function RingRun<T>(r: Ring<T>, ops: seq<Op<T>>): (Ring<T>, seq<Result<T>>)
    requires r.WellFormed()
    decreases |ops|
  {
    if ops == [] then (r, []) else
      RingStepRefines(r, ops[0]);
      var (r1, result) := RingStep(r, ops[0]);
      var (r2, results) := RingRun(r1, ops[1..]);
      (r2, [result] + results)
  }

  /** Every run of the ring is a run of the bounded deque, with the same
      results, and keeps the counts derived from the offsets right. */
  lemma {:induction false} RingRunRefines<T>(r: Ring<T>, ops: seq<Op<T>>)
    requires r.WellFormed()
    ensures var (r', results) := RingRun(r, ops);
            && r'.WellFormed() && r'.Capacity() == r.Capacity() && AsDeque(r).Sound()
            && (AsDeque(r'), results) == AsDeque(r).Run(ops)
            && r'.q.Length() == |r'.Contents()|
            && r'.q.Available() == r.q.Capacity() - |r'.Contents()|
            && (r'.q.IsFull() <==> |r'.Contents()| == r.q.Capacity())
            && (r'.q.IsEmpty() <==> r'.Contents() == [])
    decreases |ops|
  {
    AsDequeSound(r);
    Counts(r.q, |r.slots|, r.h, r.t);
    if ops == [] {
      ContentsCount(r);
    } else {
      RingStepRefines(r, ops[0]);
      var r1 := RingStep(r, ops[0]).0;
      RingRunRefines(r1, ops[1..]);
      Counts(r1.q, |r1.slots|, r1.h, r1.t);
    }
  }

  // ----- push and pop as written -----

  datatype Written<T> = Made(ring: Ring<T>, result: Result<T>) | OutsideSlots(offset: nat)

  ghost predicate IsSlot<T>(r: Ring<T>, offset: nat, i: nat)
    requires r.q.Cque?
  {
    i < |r.slots| && r.q.At(i) == offset
  }

  ghost function PushWritten<T>(r: Ring<T>, item: Option<T>): Written<T>
    requires r.WellFormed()
  {
    if r.q.NoQueue? then Made(r, Refused) else
      var pos := r.q.BackInPush(r.q.head);
      if pos == r.q.head then Made(r, Refused)
      else if i: nat :| IsSlot(r, pos, i) then
        Made(Ring(r.q.(head := pos), i, r.t, r.slots[i := item.GetOr(r.slots[i])]), Accepted)
      else OutsideSlots(pos)
  }

  ghost function PopWritten<T>(r: Ring<T>): Written<T>
    requires r.WellFormed()
  {
    if r.q.IsEmpty() then Made(r, Empty) else
      var pos := Sub32(r.q.tail, r.q.itemSize);
      if i: nat :| IsSlot(r, pos, i) then
        Made(Ring(r.q.(tail := pos), r.h, i, r.slots), Taken(r.slots[i]))
      else OutsideSlots(pos)
  }

  ghost function StepWritten<T>(r: Ring<T>, op: Op<T>): Written<T>
    requires r.WellFormed()
  {
    match op
    case Push(x) => PushWritten(r, x)
    case Pop => PopWritten(r)
    case _ => var (r', result) := RingStep(r, op); Made(r', result)
  }

  /** When push and pop do as the deque does; a caller can test it. */
  predicate InDomain<T>(q: Cque, op: Op<T>)
  {
    match op
    case Push(_) => q.NoQueue? || (!q.IsFull() && (q.head != q.begin || q.itemSize <= HEADER))
    case Pop => q.IsEmpty() || q.tail != q.begin
    case _ => true
  }

  lemma OneSlot<T>(r: Ring<T>, i: nat)
    requires r.WellFormed() && r.q.Cque? && i < |r.slots|
    ensures IsSlot(r, r.q.At(i), i)
    ensures forall j :: IsSlot(r, r.q.At(i), j) ==> j == i
  {
    forall j | IsSlot(r, r.q.At(i), j) ensures j == i {
      AtInjective(r.q, i, j);
    }
  }

  lemma NoSlotBelowBegin<T>(r: Ring<T>)
    requires r.WellFormed() && r.q.Cque?
    ensures forall j :: !IsSlot(r, Sub32(r.q.begin, r.q.itemSize), j)
  {
    forall j: nat | j < |r.slots| ensures !IsSlot(r, Sub32(r.q.begin, r.q.itemSize), j) {
      BelowBegin(r.q, |r.slots|, r.h, r.t, j);
    }
  }

  /** Past begin, or with items no larger than the header, the written push
      takes the slot before the head, on a full ring too. */
  lemma PushMoves<T>(r: Ring<T>, x: Option<T>)
    requires r.WellFormed() && r.q.Cque? && (r.q.head != r.q.begin || r.q.itemSize <= HEADER)
    ensures var p := Pred(r.h, |r.slots|);
            PushWritten(r, x)
            == Made(Ring(r.q.(head := r.q.Back(r.q.head)), p, r.t, r.slots[p := x.GetOr(r.slots[p])]), Accepted)
  {
    var n, p := |r.slots|, Pred(r.h, |r.slots|);
    PushMoveExact(r.q, n, r.h, r.t);
    BackSlot(r.q, n, r.h, r.t, r.h);
    AtInjective(r.q, r.h, p);
    OneSlot(r, p);
  }

  lemma PushOversteps<T>(r: Ring<T>, x: Option<T>)
    requires r.WellFormed() && r.q.Cque? && r.q.head == r.q.begin && r.q.itemSize > HEADER
    ensures PushWritten(r, x).OutsideSlots?
  {
    PushMoveExact(r.q, |r.slots|, r.h, r.t);
    OneSlot(r, r.h);
    AtInjective(r.q, r.h, 0);
    NoSlotBelowBegin(r);
  }

  lemma FullPushEmpties<T>(r: Ring<T>, x: Option<T>)
    requires r.WellFormed() && r.q.Cque? && r.q.IsFull() && PushWritten(r, x).Made?
    ensures PushWritten(r, x).result == Accepted
    ensures PushWritten(r, x).ring.WellFormed() && PushWritten(r, x).ring.Contents() == []
  {
    ContentsCount(r);
    BackSlot(r.q, |r.slots|, r.h, r.t, r.h);
    if r.q.head == r.q.begin && r.q.itemSize > HEADER {
      PushOversteps(r, x);
    } else {
      PushMoves(r, x);
    }
  }

  lemma PushWrittenExact<T>(r: Ring<T>, x: Option<T>)
    requires r.WellFormed()
    ensures var (r', result) := RingStep(r, Push(x));
            var written := PushWritten(r, x);
            && (written == Made(r', result) <==> InDomain(r.q, Push(x)))
            && (written.Made? && written.result == result <==> InDomain(r.q, Push(x)))
            && (written.Made? ==> written.ring.WellFormed())
  {
    if r.q.Cque? {
      PushPrepends(r, x);
      if r.q.head == r.q.begin && r.q.itemSize > HEADER {
        PushOversteps(r, x);
      } else {
        PushMoves(r, x);
        if r.q.IsFull() {
          FullPushEmpties(r, x);
        }
      }
    }
  }

  lemma PopWrittenExact<T>(r: Ring<T>)
    requires r.WellFormed()
    ensures var (r', result) := RingStep(r, Pop);
            var written := PopWritten(r);
            && (written == Made(r', result) <==> InDomain(r.q, Op<T>.Pop))
            && (written.Made? && written.result == result <==> InDomain(r.q, Op<T>.Pop))
            && (written.Made? ==> written.ring.WellFormed())
  {
    if !r.q.IsEmpty() {
      PopMoveExact(r.q, |r.slots|, r.h, r.t);
      BackSlot(r.q, |r.slots|, r.h, r.t, r.t);
      OneSlot(r, Pred(r.t, |r.slots|));
      NoSlotBelowBegin(r);
    }
  }

  /** A written step does what the deque does, in state and in result, exactly
      in the domain of push and pop. */
  lemma StepWrittenExact<T>(r: Ring<T>, op: Op<T>)
    requires r.WellFormed()
    ensures var (r', result) := RingStep(r, op);
            var written := StepWritten(r, op);
            && (written == Made(r', result) <==> InDomain(r.q, op))
            && (written.Made? && written.result == result <==> InDomain(r.q, op))
            && (written.Made? ==> written.ring.WellFormed())
  {
    match op
    case Push(x) => PushWrittenExact(r, x);
    case Pop => PopWrittenExact(r);
    case _ => RingStepRefines(r, op);
  }

  /** What the written push does to a full ring: it reports success and the
      ring becomes empty, so every stored item is lost. */
  lemma PushOnFullLosesAll<T>(r: Ring<T>, x: Option<T>)
    requires r.WellFormed() && r.q.Cque? && r.q.IsFull()
    requires r.q.head != r.q.begin || r.q.itemSize <= HEADER
    ensures PushWritten(r, x).Made? && PushWritten(r, x).result == Accepted
    ensures PushWritten(r, x).ring.WellFormed() && PushWritten(r, x).ring.Contents() == []
    ensures |r.Contents()| == r.Capacity() > 0
  {
    ContentsCount(r);
    PushMoves(r, x);
    FullPushEmpties(r, x);
  }

  /** A run of the queue as written; it ends when head or tail goes astray. */
  ghost function WrittenRun<T>(r: Ring<T>, ops: seq<Op<T>>): seq<Result<T>>
    requires r.WellFormed()
    decreases |ops|
  {
    if ops == [] then [] else
      match StepWritten(r, ops[0])
      case OutsideSlots(_) => [Stray]
      case Made(r', result) =>
        StepWrittenExact(r, ops[0]);
        [result] + WrittenRun(r', ops[1..])
  }

  /** Every call of the run respects the domain of push and pop. */
  ghost predicate InDomainThroughout<T>(r: Ring<T>, ops: seq<Op<T>>)
    requires r.WellFormed()
    decreases |ops|
  {
    ops != [] ==>
      && InDomain(r.q, ops[0])
      && (RingStepRefines(r, ops[0]); InDomainThroughout(RingStep(r, ops[0]).0, ops[1..]))
  }

  /** The queue as written answers like the bounded deque over a whole run if
      and only if no push finds it full or oversteps begin, and no pop of a
      non-empty queue finds the tail at begin. */
  lemma {:induction false} WrittenRunExact<T>(r: Ring<T>, ops: seq<Op<T>>)
    requires r.WellFormed()
    ensures AsDeque(r).Sound()
    ensures WrittenRun(r, ops) == AsDeque(r).Run(ops).1 <==> InDomainThroughout(r, ops)
    decreases |ops|
  {
    AsDequeSound(r);
    if ops != [] {
      RingStepRefines(r, ops[0]);
      StepWrittenExact(r, ops[0]);
      var (d1, result) := AsDeque(r).Step(ops[0]);
      var deque := d1.Run(ops[1..]).1;
      if InDomain(r.q, ops[0]) {
        var r1 := RingStep(r, ops[0]).0;
        WrittenRunExact(r1, ops[1..]);
        assert ([result] + WrittenRun(r1, ops[1..]))[1..] == WrittenRun(r1, ops[1..]);
        assert ([result] + deque)[1..] == deque;
      } else {
        assert AsDeque(r).Run(ops).1[0] == result;
        assert WrittenRun(r, ops)[0] != result;
      }
    }
  }

  // ----- a run that goes astray -----

  /** The ring whose contents are two of three slots from slot 1 on has its tail
      at begin. */
  lemma TailAtBegin<T>(r: Ring<T>)
    requires r.WellFormed() && |r.slots| == 3 && r.h == 1 && |r.Contents()| == 2
    ensures r.q.Cque? && !r.q.IsEmpty() && r.q.tail == r.q.begin
  {
    ContentsCount(r);
    assert r.t == 0;
  }

  lemma NextCall<T>(r: Ring<T>, ops: seq<Op<T>>, op: Op<T>, rest: seq<Op<T>>)
    requires r.WellFormed() && ops == [op] + rest && InDomain(r.q, op)
    ensures var (r', result) := RingStep(r, op);
            && r'.WellFormed() && AsDeque(r).Sound() && AsDeque(r').Sound() && |r'.slots| == |r.slots|
            && (AsDeque(r'), result) == AsDeque(r).Step(op)
            && AsDeque(r).Run(ops).1 == [result] + AsDeque(r').Run(rest).1
            && WrittenRun(r, ops) == [result] + WrittenRun(r', rest)
  {
    RingStepRefines(r, op);
    AsDequeSound(RingStep(r, op).0);
    StepWrittenExact(r, op);
    assert ops[1..] == rest;
  }

  /** The last call of the run. */
  lemma PopStrays<T>(r: Ring<T>, ops: seq<Op<T>>, b: T, c: T)
    requires r.WellFormed() && |r.slots| == 3 && r.h == 1 && r.Contents() == [b, c] && ops == [Op.Pop]
    ensures AsDeque(r).Sound() && AsDeque(r).Run(ops).1 == [Taken(c)] && WrittenRun(r, ops) == [Stray]
  {
    AsDequeSound(r);
    TailAtBegin(r);
    PopWrittenExact(r);
    RingStepRefines(r, Op.Pop);
    assert AsDeque(r).Step(Op.Pop).0.Run(ops[1..]).1 == [];
  }

  lemma PutPopStrays<T>(r: Ring<T>, b: T, c: T)
    requires r.WellFormed() && |r.slots| == 3 && r.h == 1 && r.Contents() == [b]
    ensures var ops := [Put(Some(c)), Op.Pop];
            && AsDeque(r).Sound() && AsDeque(r).Run(ops).1 == [Accepted, Taken(c)]
            && WrittenRun(r, ops) == [Accepted, Stray]
  {
    var op, last := Put(Some(c)), [Op<T>.Pop];
    NextCall(r, [op] + last, op, last);
    PopStrays(RingStep(r, op).0, last, b, c);
    assert [op] + last == [Put(Some(c)), Op.Pop];
  }

  lemma GetPutPopStrays<T>(r: Ring<T>, a: T, b: T, c: T)
    requires r.WellFormed() && |r.slots| == 3 && r.h == 0 && r.Contents() == [a, b]
    ensures var ops := [Op.Get, Put(Some(c)), Op.Pop];
            && AsDeque(r).Sound() && AsDeque(r).Run(ops).1 == [Taken(a), Accepted, Taken(c)]
            && WrittenRun(r, ops) == [Taken(a), Accepted, Stray]
  {
    var op, rest := Op<T>.Get, [Put(Some(c)), Op.Pop];
    NextCall(r, [op] + rest, op, rest);
    PutPopStrays(RingStep(r, op).0, b, c);
    assert [op] + rest == [Op.Get, Put(Some(c)), Op.Pop];
  }

  lemma PutGetPutPopStrays<T>(r: Ring<T>, a: T, b: T, c: T)
    requires r.WellFormed() && |r.slots| == 3 && r.h == 0 && r.Contents() == [a]
    ensures var ops := [Put(Some(b)), Op.Get, Put(Some(c)), Op.Pop];
            && AsDeque(r).Sound() && AsDeque(r).Run(ops).1 == [Accepted, Taken(a), Accepted, Taken(c)]
            && WrittenRun(r, ops) == [Accepted, Taken(a), Accepted, Stray]
  {
    var op, rest := Put(Some(b)), [Op.Get, Put(Some(c)), Op.Pop];
    NextCall(r, [op] + rest, op, rest);
    GetPutPopStrays(RingStep(r, op).0, a, b, c);
    assert [op] + rest == [Put(Some(b)), Op.Get, Put(Some(c)), Op.Pop];
  }

  /** On a new queue of capacity 2, a put, a put, a get, a put and a pop: the
      deque takes the last item, the tail of the queue as written goes astray. */
  lemma PopRunStrays<T>(r: Ring<T>, a: T, b: T, c: T)
    requires r.WellFormed() && |r.slots| == 3 && r.h == r.t == 0
    ensures var ops := [Put(Some(a)), Put(Some(b)), Op.Get, Put(Some(c)), Op.Pop];
            && AsDeque(r).Sound()
            && AsDeque(r).Run(ops).1 == [Accepted, Accepted, Taken(a), Accepted, Taken(c)]
            && WrittenRun(r, ops) == [Accepted, Accepted, Taken(a), Accepted, Stray]
  {
    var op, rest := Put(Some(a)), [Put(Some(b)), Op.Get, Put(Some(c)), Op.Pop];
    NextCall(r, [op] + rest, op, rest);
    PutGetPutPopStrays(RingStep(r, op).0, a, b, c);
    assert [op] + rest == [Put(Some(a)), Put(Some(b)), Op.Get, Put(Some(c)), Op.Pop];
  }
}
