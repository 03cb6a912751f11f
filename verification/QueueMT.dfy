/** The queue under its readers-writer lock.  Threads take the steps of put,
    get, pop and the read accessors one at a time, in any interleaving; the only
    assumption about the lock is that a writer excludes everybody else.  Every
    call is logged when it releases the lock. */
module QueueMTs {
  import opened Options
  import opened Words
  import opened ControlBlock
  import opened Ring

  type Tid = nat

  datatype Query = Length | Available | Capacity | IsEmpty | IsFull

  /** Where a thread stands inside a call; all but Idle hold the lock.  An item
      to put is None for a null pointer; copy tells that get has a place to copy
      the item to, and item is then what it holds. */
  datatype Pc<T> =
    | Idle
    | PutStart(item: Option<T>)
    | PutRoom(item: Option<T>, npos: nat)    // npos computed and not the head
    | PutCopied(item: Option<T>, npos: nat)  // item, if any, copied into the tail slot
    | PutDone(item: Option<T>, stored: Option<T>)
    | GetStart(copy: bool)
    | GetSome(copy: bool)                    // not empty
    | GetCopied(copy: bool, item: Option<T>) // the head slot copied, if there is a place
    | GetMoved(copy: bool, item: Option<T>)  // head advanced, not yet wrapped
    | GetDone(copy: bool, ok: bool, item: Option<T>)
    | ReadStart(query: Query)
    | ReadHead(query: Query, head: nat)
    | ReadDone(query: Query, value: nat)
  {
    predicate Writes()
    {
      PutStart? || PutRoom? || PutCopied? || PutDone? || GetStart? || GetSome? || GetCopied? || GetMoved? || GetDone?
    }

    predicate Reads() { ReadStart? || ReadHead? || ReadDone? }
  }

  /** A finished call: stored is what put has appended, None if it failed. */
  datatype Entry<T> =
    | PutEntry(t: Tid, item: Option<T>, stored: Option<T>)
    | GetEntry(t: Tid, copy: bool, ok: bool, item: Option<T>)
    | ReadEntry(t: Tid, query: Query, value: nat)

  datatype State<T> = State(
    ring: Ring<T>, writer: Option<Tid>, readers: set<Tid>, pcs: map<Tid, Pc<T>>, log: seq<Entry<T>>)
  {
    function Pc(t: Tid): Pc<T> { if t in pcs then pcs[t] else Idle }

    function To(t: Tid, pc: Pc<T>): State<T> { this.(pcs := pcs[t := pc]) }
  }

  datatype Action<T> =
    | BeginPut(t: Tid, item: Option<T>)
    | BeginGet(t: Tid, copy: bool)
    | BeginPop(t: Tid, copy: bool)  // pop of the locked queue removes from the head
    | BeginRead(t: Tid, query: Query)
    | Advance(t: Tid)

  // ----- the steps -----

  function Bit(b: bool): nat { if b then 1 else 0 }

  /** An accessor computed from a control block. */
  function Eval(query: Query, q: Cque): nat
    requires q.Cque? ==> q.itemSize > 0
  {
    match query
    case Length => q.Length()
    case Available => q.Available()
    case Capacity => q.Capacity()
    case IsEmpty => Bit(q.IsEmpty())
    case IsFull => Bit(q.IsFull())
  }

  ghost predicate Sized<T>(s: State<T>) { s.ring.q.Cque? ==> s.ring.q.itemSize > 0 }

  /** A thread that cannot take its step, or has no call to go on with, waits. */
  ghost function Step<T>(s: State<T>, a: Action<T>): (s': State<T>)
    requires Sized(s)
    ensures Sized(s')
  {
    var free := s.writer.None? && s.readers == {};
    match a
    case BeginPut(t, item) =>
      if free && s.Pc(t).Idle? then s.To(t, PutStart(item)).(writer := Some(t)) else s
    case BeginGet(t, copy) =>
      if free && s.Pc(t).Idle? then s.To(t, GetStart(copy)).(writer := Some(t)) else s
    case BeginPop(t, copy) =>
      if free && s.Pc(t).Idle? then s.To(t, GetStart(copy)).(writer := Some(t)) else s
    case BeginRead(t, query) =>
      if s.writer.None? && s.Pc(t).Idle? then s.To(t, ReadStart(query)).(readers := s.readers + {t}) else s
    case Advance(t) => Next(s, t)
  }

  ghost function Next<T>(s: State<T>, t: Tid): (s': State<T>)
    requires Sized(s)
    ensures Sized(s')
  {
    var ring := s.ring;
    var q := ring.q;
    match s.Pc(t)
    case Idle => s
    case PutStart(item) =>
      if q.NoQueue? || q.Forward(q.tail) == q.head then s.To(t, PutDone(item, None))
      else s.To(t, PutRoom(item, q.Forward(q.tail)))
    case PutRoom(item, npos) =>
      if ring.t < |ring.slots| then
        s.To(t, PutCopied(item, npos)).(ring := ring.(slots := ring.slots[ring.t := item.GetOr(ring.slots[ring.t])]))
      else s
    case PutCopied(item, npos) =>
      if q.Cque? && ring.t < |ring.slots| then
        s.To(t, PutDone(item, Some(ring.slots[ring.t])))
        .(ring := ring.(q := q.(tail := npos), t := Succ(ring.t, |ring.slots|)))
      else s
    case PutDone(item, stored) =>
      s.To(t, Idle).(writer := None, log := s.log + [PutEntry(t, item, stored)])
    case GetStart(copy) =>
      if q.IsEmpty() then s.To(t, GetDone(copy, false, None)) else s.To(t, GetSome(copy))
    case GetSome(copy) =>
      if !copy then s.To(t, GetCopied(copy, None))
      else if ring.h < |ring.slots| then s.To(t, GetCopied(copy, Some(ring.slots[ring.h])))
      else s
    case GetCopied(copy, item) =>
      if q.Cque? then s.To(t, GetMoved(copy, item)).(ring := ring.(q := q.(head := Add32(q.head, q.itemSize)))) else s
    case GetMoved(copy, item) =>
      if q.Cque? && ring.h < |ring.slots| then
        s.To(t, GetDone(copy, true, item))
        .(ring := ring.(q := if q.head == q.end then q.(head := q.begin) else q, h := Succ(ring.h, |ring.slots|)))
      else s
    case GetDone(copy, ok, item) =>
      s.To(t, Idle).(writer := None, log := s.log + [GetEntry(t, copy, ok, item)])
    case ReadStart(query) =>
      if q.NoQueue? then s.To(t, ReadDone(query, Eval(query, q))) else s.To(t, ReadHead(query, q.head))
    case ReadHead(query, head) =>
      if q.Cque? then s.To(t, ReadDone(query, Eval(query, q.(head := head)))) else s
    case ReadDone(query, value) =>
      s.To(t, Idle).(readers := s.readers - {t}, log := s.log + [ReadEntry(t, query, value)])
  }

  ghost function Run<T>(s: State<T>, schedule: seq<Action<T>>): State<T>
    requires Sized(s)
    decreases |schedule|
  {
    if schedule == [] then s else Run(Step(s, schedule[0]), schedule[1..])
  }

  // ----- the sequential queue -----

  function Answer<T>(query: Query, s: seq<T>, capacity: nat): nat
  {
    match query
    case Length => |s|
    case Available => if |s| <= capacity then capacity - |s| else 0
    case Capacity => capacity
    case IsEmpty => Bit(|s| == 0)
    case IsFull => Bit(|s| == capacity)
  }

  /** One call of a sequential bounded queue, or None if it would have answered
      differently. */
  ghost function Apply<T>(entry: Entry<T>, s: seq<T>, capacity: nat): Option<seq<T>>
  {
    match entry
    case PutEntry(_, item, stored) =>
      if stored.Some? != (|s| < capacity) || (item.Some? && stored.Some? && stored != item) then None
      else if stored.Some? then Some(s + [stored.value]) else Some(s)
    case GetEntry(_, copy, ok, item) =>
      if ok != (s != []) || item != (if ok && copy then Some(s[0]) else None) then None
      else if ok then Some(s[1..]) else Some(s)
    case ReadEntry(_, query, value) =>
      if value == Answer(query, s, capacity) then Some(s) else None
  }

  /** The log as a run of the sequential queue: its final contents, or None if
      some answer is not the sequential one. */
  ghost function Sequential<T>(log: seq<Entry<T>>, capacity: nat): Option<seq<T>>
  {
    if log == [] then Some([]) else
      match Sequential(log[..|log| - 1], capacity)
      case None => None
      case Some(s) => Apply(log[|log| - 1], s, capacity)
  }

  lemma SequentialOneMore<T>(log: seq<Entry<T>>, entry: Entry<T>, capacity: nat, s: seq<T>)
    requires Sequential(log, capacity) == Some(s)
    ensures Sequential(log + [entry], capacity) == Apply(entry, s, capacity)
  {
    assert (log + [entry])[..|log|] == log;
  }

  // ----- the invariant -----

  /** The ring as it was before a get began to move its head. */
  ghost function HeadRestored<T>(r: Ring<T>): Ring<T>
  {
    if r.q.NoQueue? then r else r.(q := r.q.(head := r.q.At(r.h)))
  }

  /** What the writer inside has done so far, where s is the queue that the
      calls logged so far leave behind. */
  ghost predicate WriterInv<T>(r: Ring<T>, pc: Pc<T>, s: seq<T>)
  {
    match pc
    case PutStart(_) => r.WellFormed() && r.Contents() == s
    case PutRoom(_, npos) =>
      r.WellFormed() && r.Contents() == s && r.q.Cque? && npos == r.q.Forward(r.q.tail) != r.q.head
    case PutCopied(item, npos) =>
      && r.WellFormed() && r.Contents() == s && r.q.Cque? && npos == r.q.Forward(r.q.tail) != r.q.head
      && item.GetOr(r.slots[r.t]) == r.slots[r.t]
    case PutDone(item, stored) =>
      && r.WellFormed() && (stored.Some? <==> |s| < r.Capacity())
      && (stored.Some? && item.Some? ==> stored == item)
      && r.Contents() == if stored.Some? then s + [stored.value] else s
    case GetStart(_) => r.WellFormed() && r.Contents() == s
    case GetSome(_) => r.WellFormed() && r.Contents() == s && !r.q.IsEmpty()
    case GetCopied(copy, item) =>
      r.WellFormed() && r.Contents() == s && !r.q.IsEmpty() && item == if copy then Some(r.slots[r.h]) else None
    case GetMoved(copy, item) =>
      var r0 := HeadRestored(r);
      && r0.WellFormed() && r0.Contents() == s && !r0.q.IsEmpty() && r.q.head == Add32(r0.q.head, r.q.itemSize)
      && item == if copy then Some(r.slots[r.h]) else None
    case GetDone(copy, ok, item) =>
      && r.WellFormed() && (ok <==> s != []) && r.Contents() == (if ok then s[1..] else [])
      && item == if ok && copy then Some(s[0]) else None
    case _ => false
  }

  ghost predicate ReaderInv<T>(r: Ring<T>, pc: Pc<T>)
    requires r.WellFormed()
  {
    match pc
    case ReadStart(_) => true
    case ReadHead(_, head) => r.q.Cque? && head == r.q.head
    case ReadDone(query, value) => value == Answer(query, r.Contents(), r.Capacity())
    case _ => false
  }

  ghost predicate Inv<T>(s: State<T>, capacity: nat)
  {
    && Sized(s) && |s.ring.slots| == capacity + 1
    && (forall t: Tid :: s.Pc(t).Writes() <==> s.writer == Some(t))
    && (forall t: Tid :: s.Pc(t).Reads() <==> t in s.readers)
    && (s.writer.Some? ==> s.readers == {})
    && Sequential(s.log, capacity).Some?
    && var queue := Sequential(s.log, capacity).value;
       match s.writer
       case None =>
         && s.ring.WellFormed() && s.ring.Contents() == queue
         && forall t: Tid :: t in s.readers ==> ReaderInv(s.ring, s.Pc(t))
       case Some(w) => WriterInv(s.ring, s.Pc(w), queue)
  }

  // ----- preservation -----

  /** The effect of one step of the writer on the ring and on its own place. */
  lemma WriterSteps<T>(s: State<T>, t: Tid, queue: seq<T>)
    requires Sized(s) && s.Pc(t).Writes() && !s.Pc(t).PutDone? && !s.Pc(t).GetDone?
    requires WriterInv(s.ring, s.Pc(t), queue)
    ensures var s' := Next(s, t);
            && WriterInv(s'.ring, s'.Pc(t), queue) && s'.Pc(t).Writes() && s' == s.To(t, s'.Pc(t)).(ring := s'.ring)
            && |s'.ring.slots| == |s.ring.slots|
  {
    var r := s.ring;
    match s.Pc(t)
    case PutStart(_) => ContentsCount(r);
    case PutRoom(item, _) => SpareSlot(r, item.GetOr(r.slots[r.t]));
    case PutCopied(item, _) =>
      PutAppends(r, item);
      assert r.slots[r.t := r.slots[r.t]] == r.slots;
    case GetStart(_) => ContentsCount(r);
    case GetSome(_) =>
    case GetCopied(_, _) =>
    case GetMoved(_, _) =>
      var r0 := HeadRestored(r);
      GetTakesHead(r0);
      ForwardSlot(r0.q, |r0.slots|, r0.h, r0.t, r0.h);
    case _ =>
  }

  /** Writing the spare slot at the tail changes no stored item. */
  lemma SpareSlot<T>(r: Ring<T>, item: T)
    requires r.WellFormed()
    ensures r.(slots := r.slots[r.t := item]).WellFormed()
    ensures r.(slots := r.slots[r.t := item]).Contents() == r.Contents()
  {
  }

  /** An accessor's snapshot of head and tail is the ring's own as long as no
      writer is inside, and the answer from it is that of the queue. */
  lemma ReaderAnswers<T>(r: Ring<T>, query: Query)
    requires r.WellFormed()
    ensures Eval(query, r.q) == Answer(query, r.Contents(), r.Capacity())
  {
    Counts(r.q, |r.slots|, r.h, r.t);
  }

  /** An accessor of a queue with a block reads the head in one step and the rest
      in another; others may step in between. */
  lemma ReadsInTwoSteps<T>(s: State<T>, t: Tid)
    requires Sized(s) && s.ring.q.Cque? && s.Pc(t).ReadStart?
    ensures Next(s, t).Pc(t) == ReadHead(s.Pc(t).query, s.ring.q.head) && Next(s, t).ring == s.ring
    ensures Next(Next(s, t), t).Pc(t).ReadDone?
  {
  }

  /** A writer's step that keeps the lock keeps the invariant. */
  lemma WriterKeeps<T>(s: State<T>, t: Tid, capacity: nat)
    requires Inv(s, capacity) && s.Pc(t).Writes() && !s.Pc(t).PutDone? && !s.Pc(t).GetDone?
    ensures Inv(Next(s, t), capacity)
  {
    var s' := Next(s, t);
    WriterSteps(s, t, Sequential(s.log, capacity).value);
    assert forall u: Tid :: u != t ==> s'.Pc(u) == s.Pc(u);
    assert Sized(s') && s'.log == s.log && s'.writer == s.writer && s'.readers == s.readers;
  }

  /** The call that a thread about to release the lock has made. */
  ghost function EntryOf<T>(t: Tid, pc: Pc<T>): Entry<T>
    requires pc.PutDone? || pc.GetDone? || pc.ReadDone?
  {
    match pc
    case PutDone(item, stored) => PutEntry(t, item, stored)
    case GetDone(copy, ok, item) => GetEntry(t, copy, ok, item)
    case ReadDone(query, value) => ReadEntry(t, query, value)
  }

  lemma DoneApplies<T>(r: Ring<T>, t: Tid, pc: Pc<T>, queue: seq<T>)
    requires (pc.PutDone? || pc.GetDone?) && WriterInv(r, pc, queue)
    ensures Apply(EntryOf(t, pc), queue, r.Capacity()) == Some(r.Contents())
  {
  }

  lemma ReleaseSteps<T>(s: State<T>, t: Tid)
    requires Sized(s) && (s.Pc(t).PutDone? || s.Pc(t).GetDone? || s.Pc(t).ReadDone?)
    ensures var s' := Next(s, t);
            && s'.ring == s.ring && s'.log == s.log + [EntryOf(t, s.Pc(t))] && s'.Pc(t).Idle?
            && s'.readers == s.readers - (if s.Pc(t).Reads() then {t} else {})
            && s'.writer == (if s.Pc(t).Reads() then s.writer else None)
            && forall u: Tid :: u != t ==> s'.Pc(u) == s.Pc(u)
  {
  }

  /** A writer that releases the lock logs a call of the sequential queue. */
  lemma WriterReleases<T>(s: State<T>, t: Tid, capacity: nat)
    requires Inv(s, capacity) && (s.Pc(t).PutDone? || s.Pc(t).GetDone?)
    ensures Inv(Next(s, t), capacity)
  {
    var queue, pc := Sequential(s.log, capacity).value, s.Pc(t);
    assert pc.Writes();
    DoneApplies(s.ring, t, pc, queue);
    SequentialOneMore(s.log, EntryOf(t, pc), capacity, queue);
    ReleaseSteps(s, t);
  }

  lemma ReaderReleases<T>(s: State<T>, t: Tid, capacity: nat)
    requires Inv(s, capacity) && s.Pc(t).ReadDone?
    ensures Inv(Next(s, t), capacity)
  {
    var queue, pc := Sequential(s.log, capacity).value, s.Pc(t);
    assert pc.Reads() && t in s.readers;
    SequentialOneMore(s.log, EntryOf(t, pc), capacity, queue);
    assert Apply(EntryOf(t, pc), queue, capacity) == Some(queue);
    ReleaseSteps(s, t);
  }

  /** A reader inside keeps what it has read, and changes nothing. */
  lemma ReaderSteps<T>(s: State<T>, t: Tid)
    requires Sized(s) && (s.Pc(t).ReadStart? || s.Pc(t).ReadHead?) && s.ring.WellFormed() && ReaderInv(s.ring, s.Pc(t))
    ensures var s' := Next(s, t);
            && s' == s.To(t, s'.Pc(t)) && s'.Pc(t).Reads() && ReaderInv(s.ring, s'.Pc(t))
            && forall u: Tid :: u != t ==> s'.Pc(u) == s.Pc(u)
  {
    ReaderAnswers(s.ring, s.Pc(t).query);
  }

  lemma ReaderKeeps<T>(s: State<T>, t: Tid, capacity: nat)
    requires Inv(s, capacity) && s.Pc(t).Reads()
    ensures Inv(Next(s, t), capacity)
  {
    assert t in s.readers;
    if s.Pc(t).ReadDone? {
      ReaderReleases(s, t, capacity);
    } else {
      ReaderSteps(s, t);
    }
  }

  lemma NextKeeps<T>(s: State<T>, t: Tid, capacity: nat)
    requires Inv(s, capacity)
    ensures Inv(Next(s, t), capacity)
  {
    var pc := s.Pc(t);
    if pc.PutDone? || pc.GetDone? {
      WriterReleases(s, t, capacity);
    } else if pc.Writes() {
      WriterKeeps(s, t, capacity);
    } else if pc.Reads() {
      ReaderKeeps(s, t, capacity);
    }
  }

  lemma StepKeeps<T>(s: State<T>, a: Action<T>, capacity: nat)
    requires Inv(s, capacity)
    ensures Inv(Step(s, a), capacity)
  {
    if a.Advance? {
      NextKeeps(s, a.t, capacity);
    } else {
      var s' := Step(s, a);
      assert forall u: Tid :: u != a.t ==> s'.Pc(u) == s.Pc(u);
    }
  }

  // ----- every schedule -----

  ghost predicate Started<T>(s: State<T>, capacity: nat, itemSize: nat)
  {
    && capacity < U32 && itemSize < U32 && Fits(capacity, itemSize)
    && s.ring.q == Init(capacity, itemSize) && s.ring.h == s.ring.t == 0 && |s.ring.slots| == capacity + 1
    && s.writer == None && s.readers == {} && s.pcs == map[] && s.log == []
  }

  /** A new queue with no thread inside can start, if its slots fit. */
  lemma NewStarts<T>(capacity: nat, itemSize: nat, slots: seq<T>)
    requires capacity < U32 && itemSize < U32 && |slots| == capacity + 1
    ensures Started(State(Ring(Init(capacity, itemSize), 0, 0, slots), None, {}, map[], []), capacity, itemSize)
            <==> capacity == 0 || (itemSize >= 1 && 20 + (capacity + 1) * itemSize < 4294967296)
  {
    InitFits(capacity, itemSize);
  }

  lemma StartedInv<T>(s: State<T>, capacity: nat, itemSize: nat)
    requires Started(s, capacity, itemSize)
    ensures Inv(s, capacity)
  {
    InitFits(capacity, itemSize);
  }

  lemma {:induction false} RunKeeps<T>(s: State<T>, schedule: seq<Action<T>>, capacity: nat)
    requires Inv(s, capacity)
    ensures Inv(Run(s, schedule), capacity)
    decreases |schedule|
  {
    if schedule != [] {
      StepKeeps(s, schedule[0], capacity);
      RunKeeps(Step(s, schedule[0]), schedule[1..], capacity);
    }
  }

  /** Whatever the interleaving, the calls in the order in which they release
      the lock are a run of the sequential bounded queue, with its answers, and
      whenever no writer is inside the ring holds that queue's contents. */
  lemma Linearizable<T>(s: State<T>, capacity: nat, itemSize: nat, schedule: seq<Action<T>>)
    requires Started(s, capacity, itemSize)
    ensures Sized(s)
    ensures var s' := Run(s, schedule);
            && Sequential(s'.log, capacity).Some?
            && (s'.writer.None? ==> s'.ring.WellFormed() && Sequential(s'.log, capacity) == Some(s'.ring.Contents()))
  {
    StartedInv(s, capacity, itemSize);
    RunKeeps(s, schedule, capacity);
  }

  // ----- first in, first out -----

  /** The items put with success, in lock order. */
  ghost function PutItems<T>(log: seq<Entry<T>>): seq<T>
  {
    if log == [] then [] else
      var e := log[|log| - 1];
      var items := PutItems(log[..|log| - 1]);
      if e.PutEntry? && e.stored.Some? then items + [e.stored.value] else items
  }

  /** The number of items that get and pop have taken. */
  ghost function Takes<T>(log: seq<Entry<T>>): nat
  {
    if log == [] then 0 else
      var e := log[|log| - 1];
      Takes(log[..|log| - 1]) + if e.GetEntry? && e.ok then 1 else 0
  }

  /** In a sequential run, the contents are the items put and not yet taken. */
  lemma {:induction false} SequentialIsFifo<T>(log: seq<Entry<T>>, capacity: nat)
    requires Sequential(log, capacity).Some?
    ensures Takes(log) <= |PutItems(log)| <= Takes(log) + capacity
    ensures Sequential(log, capacity).value == PutItems(log)[Takes(log)..]
  {
    if log != [] {
      SequentialIsFifo(log[..|log| - 1], capacity);
    }
  }

  lemma {:induction false} PutItemsGrow<T>(log: seq<Entry<T>>, k: nat)
    requires k <= |log|
    ensures PutItems(log[..k]) <= PutItems(log)
  {
    if k < |log| {
      var init := log[..|log| - 1];
      PutItemsGrow(init, k);
      assert init[..k] == log[..k];
    } else {
      assert log[..k] == log;
    }
  }

  /** First in, first out over every interleaving: a take that succeeds after m
      others takes the m-th item put, and what is stored, whenever no writer is
      inside, is all the items put and not yet taken. */
  lemma Fifo<T>(s: State<T>, capacity: nat, itemSize: nat, schedule: seq<Action<T>>, k: nat)
    requires Started(s, capacity, itemSize)
    ensures Sized(s)
    ensures var s' := Run(s, schedule);
            var items, takes := PutItems(s'.log), Takes(s'.log);
            && takes <= |items| <= takes + capacity
            && (s'.writer.None? ==> s'.ring.WellFormed() && s'.ring.Contents() == items[takes..])
            && (k < |s'.log| && s'.log[k].GetEntry? && s'.log[k].ok ==>
                  var m := Takes(s'.log[..k]);
                  m < |items| && s'.log[k].item == if s'.log[k].copy then Some(items[m]) else None)
  {
    Linearizable(s, capacity, itemSize, schedule);
    var log := Run(s, schedule).log;
    SequentialIsFifo(log, capacity);
    if k < |log| && log[k].GetEntry? && log[k].ok {
      SequentialPrefix(log, capacity, k);
      SequentialIsFifo(log[..k], capacity);
      PutItemsGrow(log, k);
    }
  }

  lemma {:induction false} SequentialPrefix<T>(log: seq<Entry<T>>, capacity: nat, k: nat)
    requires Sequential(log, capacity).Some? && k < |log|
    ensures Sequential(log[..k], capacity).Some?
    ensures Apply(log[k], Sequential(log[..k], capacity).value, capacity).Some?
  {
    var init := log[..|log| - 1];
    if k < |init| {
      SequentialPrefix(init, capacity, k);
      assert init[..k] == log[..k];
    }
  }

  /** Every reported answer is true at its place in the order: the number stored
      is the number put minus the number taken by the calls that released the
      lock before it, and the other answers follow from it. */
  lemma AnswersAreTrue<T>(s: State<T>, capacity: nat, itemSize: nat, schedule: seq<Action<T>>, k: nat)
    requires Started(s, capacity, itemSize)
    requires Sized(s) && k < |Run(s, schedule).log| && Run(s, schedule).log[k].ReadEntry?
    ensures var e, before := Run(s, schedule).log[k], Run(s, schedule).log[..k];
            var stored := |PutItems(before)| - Takes(before);
            && 0 <= stored <= capacity
            && (e.query == Length ==> e.value == stored)
            && (e.query == Available ==> e.value == capacity - stored)
            && (e.query == Capacity ==> e.value == capacity)
            && (e.query == IsEmpty ==> e.value == if stored == 0 then 1 else 0)
            && (e.query == IsFull ==> e.value == if stored == capacity then 1 else 0)
  {
    Linearizable(s, capacity, itemSize, schedule);
    SequentialPrefix(Run(s, schedule).log, capacity, k);
    SequentialIsFifo(Run(s, schedule).log[..k], capacity);
  }

  // ----- every call that is begun is logged -----

  /** What a thread asks for. */
  datatype Call<T> = PutCall(item: Option<T>) | GetCall(copy: bool) | ReadCall(query: Query)
  {
    predicate Writes() { PutCall? || GetCall? }
  }

  /** The call that an action asks for; pop is get. */
  function Asked<T>(a: Action<T>): Call<T>
    requires !a.Advance?
  {
    match a
    case BeginPut(_, item) => PutCall(item)
    case BeginGet(_, copy) => GetCall(copy)
    case BeginPop(_, copy) => GetCall(copy)
    case BeginRead(_, query) => ReadCall(query)
  }

  /** The call is let in: its thread is in no other, and the lock is free for
      it. */
  predicate LetIn<T>(s: State<T>, a: Action<T>)
  {
    && !a.Advance? && s.Pc(a.t).Idle? && s.writer.None?
    && (a.BeginRead? || s.readers == {})
  }

  function Logged<T>(e: Entry<T>): Call<T>
  {
    match e
    case PutEntry(_, item, _) => PutCall(item)
    case GetEntry(_, copy, _, _) => GetCall(copy)
    case ReadEntry(_, query, _) => ReadCall(query)
  }

  /** The call that a thread is in. */
  function Inside<T>(pc: Pc<T>): Option<Call<T>>
  {
    match pc
    case Idle => None
    case PutStart(item) => Some(PutCall(item))
    case PutRoom(item, _) => Some(PutCall(item))
    case PutCopied(item, _) => Some(PutCall(item))
    case PutDone(item, _) => Some(PutCall(item))
    case GetStart(copy) => Some(GetCall(copy))
    case GetSome(copy) => Some(GetCall(copy))
    case GetCopied(copy, _) => Some(GetCall(copy))
    case GetMoved(copy, _) => Some(GetCall(copy))
    case GetDone(copy, _, _) => Some(GetCall(copy))
    case ReadStart(query) => Some(ReadCall(query))
    case ReadHead(query, _) => Some(ReadCall(query))
    case ReadDone(query, _) => Some(ReadCall(query))
  }

  function AsSeq<T>(x: Option<T>): seq<T> { if x.Some? then [x.value] else [] }

  /** The calls of thread t in a log. */
  function LoggedBy<T>(log: seq<Entry<T>>, t: Tid): seq<Call<T>>
  {
    if log == [] then [] else
      var e := log[|log| - 1];
      LoggedBy(log[..|log| - 1], t) + if e.t == t then [Logged(e)] else []
  }

  /** The writers' calls in a log, with their threads. */
  function WritersLogged<T>(log: seq<Entry<T>>): seq<(Tid, Call<T>)>
  {
    if log == [] then [] else
      var e := log[|log| - 1];
      WritersLogged(log[..|log| - 1]) + if e.ReadEntry? then [] else [(e.t, Logged(e))]
  }

  /** The call that an action begins, if it is let in. */
  function Begun<T>(s: State<T>, a: Action<T>): Option<Call<T>>
  {
    if LetIn(s, a) then Some(Asked(a)) else None
  }

  /** The calls of thread t that a schedule lets in. */
  ghost function BegunBy<T>(s: State<T>, schedule: seq<Action<T>>, t: Tid): seq<Call<T>>
    requires Sized(s)
    decreases |schedule|
  {
    if schedule == [] then [] else
      var a := schedule[0];
      (if a.t == t then AsSeq(Begun(s, a)) else []) + BegunBy(Step(s, a), schedule[1..], t)
  }

  /** The writers' calls that a schedule lets in, with their threads. */
  ghost function WritersBegun<T>(s: State<T>, schedule: seq<Action<T>>): seq<(Tid, Call<T>)>
    requires Sized(s)
    decreases |schedule|
  {
    if schedule == [] then [] else
      AsWriter(schedule[0].t, Begun(s, schedule[0])) + WritersBegun(Step(s, schedule[0]), schedule[1..])
  }

  function AsWriter<T>(t: Tid, call: Option<Call<T>>): seq<(Tid, Call<T>)>
  {
    if call.Some? && call.value.Writes() then [(t, call.value)] else []
  }

  /** The calls of thread t so far, the last of them perhaps not finished. */
  function History<T>(s: State<T>, t: Tid): seq<Call<T>>
  {
    LoggedBy(s.log, t) + AsSeq(Inside(s.Pc(t)))
  }

  /** The writers' calls so far. */
  function WriterHistory<T>(s: State<T>): seq<(Tid, Call<T>)>
  {
    WritersLogged(s.log) + if s.writer.Some? then AsWriter(s.writer.value, Inside(s.Pc(s.writer.value))) else []
  }

  lemma LoggedOneMore<T>(log: seq<Entry<T>>, e: Entry<T>, t: Tid)
    ensures LoggedBy(log + [e], t) == LoggedBy(log, t) + if e.t == t then [Logged(e)] else []
    ensures WritersLogged(log + [e]) == WritersLogged(log) + AsWriter(e.t, Some(Logged(e)))
  {
    var more := log + [e];
    assert more[..|more| - 1] == log && more[|more| - 1] == e;
  }

  predicate Done<T>(pc: Pc<T>) { pc.PutDone? || pc.GetDone? || pc.ReadDone? }

  /** A step inside a call stays in that call. */
  lemma InsideStep<T>(s: State<T>, t: Tid)
    requires Sized(s) && !Done(s.Pc(t))
    ensures var s' := Next(s, t);
            && (forall u: Tid :: u != t ==> s'.Pc(u) == s.Pc(u))
            && Inside(s'.Pc(t)) == Inside(s.Pc(t)) && s'.log == s.log && s'.writer == s.writer
  {
  }

  /** The last step logs the call. */
  lemma InsideEnds<T>(s: State<T>, t: Tid)
    requires Sized(s) && Done(s.Pc(t))
    ensures var s', e := Next(s, t), EntryOf(t, s.Pc(t));
            && (forall u: Tid :: u != t ==> s'.Pc(u) == s.Pc(u))
            && s'.Pc(t).Idle? && s'.log == s.log + [e] && Some(Logged(e)) == Inside(s.Pc(t)) && e.t == t
            && s'.writer == if s.Pc(t).ReadDone? then s.writer else None
  {
    ReleaseSteps(s, t);
  }

  lemma BeginStep<T>(s: State<T>, a: Action<T>)
    requires Sized(s) && !a.Advance?
    ensures if LetIn(s, a) then
              var s' := Step(s, a);
              && (forall u: Tid :: u != a.t ==> s'.Pc(u) == s.Pc(u)) && s'.log == s.log && s'.ring == s.ring
              && Inside(s'.Pc(a.t)) == Some(Asked(a))
              && s'.writer == (if Asked(a).Writes() then Some(a.t) else None)
              && s'.readers == (if Asked(a).Writes() then {} else s.readers + {a.t})
            else Step(s, a) == s
  {
  }

  lemma BeginLogs<T>(s: State<T>, a: Action<T>, t: Tid)
    requires Sized(s) && !a.Advance?
    ensures History(Step(s, a), t) == History(s, t) + if a.t == t then AsSeq(Begun(s, a)) else []
  {
    BeginStep(s, a);
  }

  lemma EndLogs<T>(s: State<T>, u: Tid, t: Tid)
    requires Sized(s) && Done(s.Pc(u))
    ensures History(Next(s, u), t) == History(s, t)
  {
    var e := EntryOf(u, s.Pc(u));
    InsideEnds(s, u);
    LoggedOneMore(s.log, e, t);
    if u == t {
      assert AsSeq(Inside(s.Pc(t))) == [Logged(e)] && AsSeq(Inside(Next(s, u).Pc(t))) == [];
    }
  }

  lemma StepLogs<T>(s: State<T>, a: Action<T>, t: Tid)
    requires Sized(s)
    ensures History(Step(s, a), t) == History(s, t) + if a.t == t then AsSeq(Begun(s, a)) else []
  {
    if !a.Advance? {
      BeginLogs(s, a, t);
    } else if Done(s.Pc(a.t)) {
      EndLogs(s, a.t, t);
    } else {
      InsideStep(s, a.t);
    }
  }

  lemma StepLogsWriters<T>(s: State<T>, a: Action<T>, capacity: nat)
    requires Inv(s, capacity)
    ensures WriterHistory(Step(s, a)) == WriterHistory(s) + AsWriter(a.t, Begun(s, a))
  {
    var pc := s.Pc(a.t);
    if !a.Advance? {
      BeginStep(s, a);
    } else if !Done(pc) {
      InsideStep(s, a.t);
      assert AsWriter(a.t, Begun(s, a)) == [];
    } else {
      assert pc.Writes() || pc.Reads();
      InsideEnds(s, a.t);
      LoggedOneMore(s.log, EntryOf(a.t, pc), a.t);
      WriterEnds(s, a.t, capacity);
    }
  }

  lemma WriterEnds<T>(s: State<T>, t: Tid, capacity: nat)
    requires Inv(s, capacity) && Done(s.Pc(t))
    ensures if s.Pc(t).ReadDone? then s.writer == None else s.writer == Some(t)
  {
    assert s.Pc(t).Writes() || s.Pc(t).Reads();
  }

  lemma Append3<T>(x: seq<T>, y: seq<T>, z: seq<T>)
    ensures x + y + z == x + (y + z)
  {
  }

  lemma {:induction false} RunLogs<T>(s: State<T>, schedule: seq<Action<T>>, t: Tid)
    requires Sized(s)
    ensures History(Run(s, schedule), t) == History(s, t) + BegunBy(s, schedule, t)
    decreases |schedule|
  {
    if schedule != [] {
      var a, rest := schedule[0], schedule[1..];
      var first := if a.t == t then AsSeq(Begun(s, a)) else [];
      StepLogs(s, a, t);
      RunLogs(Step(s, a), rest, t);
      Append3(History(s, t), first, BegunBy(Step(s, a), rest, t));
    }
  }

  lemma {:induction false} RunLogsWriters<T>(s: State<T>, schedule: seq<Action<T>>, capacity: nat)
    requires Inv(s, capacity)
    ensures WriterHistory(Run(s, schedule)) == WriterHistory(s) + WritersBegun(s, schedule)
    decreases |schedule|
  {
    if schedule != [] {
      var a, rest := schedule[0], schedule[1..];
      StepLogsWriters(s, a, capacity);
      StepKeeps(s, a, capacity);
      RunLogsWriters(Step(s, a), rest, capacity);
      Append3(WriterHistory(s), AsWriter(a.t, Begun(s, a)), WritersBegun(Step(s, a), rest));
    }
  }

  /** Over every interleaving, the calls that have been let in are the calls
      logged, with their arguments, and those still inside: for each thread in
      its order, and for the writers together in lock order. */
  lemma CallsAreLogged<T>(s: State<T>, capacity: nat, itemSize: nat, schedule: seq<Action<T>>, t: Tid)
    requires Started(s, capacity, itemSize)
    ensures Sized(s)
    ensures var s' := Run(s, schedule);
            && BegunBy(s, schedule, t) == LoggedBy(s'.log, t) + AsSeq(Inside(s'.Pc(t)))
            && WritersBegun(s, schedule)
               == WritersLogged(s'.log)
                  + if s'.writer.Some? then AsWriter(s'.writer.value, Inside(s'.Pc(s'.writer.value))) else []
  {
    StartedInv(s, capacity, itemSize);
    NoHistory(s, capacity, itemSize, t);
    RunLogs(s, schedule, t);
    RunLogsWriters(s, schedule, capacity);
    assert [] + BegunBy(s, schedule, t) == BegunBy(s, schedule, t);
    assert [] + WritersBegun(s, schedule) == WritersBegun(s, schedule);
  }

  lemma NoHistory<T>(s: State<T>, capacity: nat, itemSize: nat, t: Tid)
    requires Started(s, capacity, itemSize)
    ensures History(s, t) == [] && WriterHistory(s) == []
  {
  }

  // ----- a call alone -----

  function Advances<T>(t: Tid, n: nat): seq<Action<T>>
  {
    seq(n, i => Action.Advance(t))
  }

  lemma AdvanceOnce<T>(s: State<T>, t: Tid, n: nat)
    requires Sized(s) && n > 0
    ensures Run(s, Advances(t, n)) == Run(Next(s, t), Advances(t, n - 1))
  {
    assert Advances<T>(t, n)[1..] == Advances<T>(t, n - 1);
  }

  /** A thread that takes its steps alone logs its call and is idle again. */
  lemma {:induction false} AloneFinishes<T>(s: State<T>, t: Tid, n: nat, capacity: nat) returns (e: Entry<T>)
    requires Inv(s, capacity) && !s.Pc(t).Idle? && StepsLeft(s.Pc(t)) <= n && (s.writer == None || s.writer == Some(t))
    ensures var s' := Run(s, Advances(t, n));
            && Inv(s', capacity) && s'.Pc(t).Idle? && s'.writer == None
            && s'.log == s.log + [e] && Some(Logged(e)) == Inside(s.Pc(t)) && e.t == t
    decreases n
  {
    AdvanceOnce(s, t, n);
    NextKeeps(s, t, capacity);
    CallsFinish(s, t, capacity);
    if Done(s.Pc(t)) {
      e := EntryOf(t, s.Pc(t));
      InsideEnds(s, t);
      WriterEnds(s, t, capacity);
      IdleStays(Next(s, t), t, n - 1);
    } else {
      InsideStep(s, t);
      e := AloneFinishes(Next(s, t), t, n - 1, capacity);
    }
  }

  lemma {:induction false} IdleStays<T>(s: State<T>, t: Tid, n: nat)
    requires Sized(s) && s.Pc(t).Idle?
    ensures Run(s, Advances(t, n)) == s
    decreases n
  {
    if n > 0 {
      AdvanceOnce(s, t, n);
      IdleStays(s, t, n - 1);
    }
  }

  /** A call with its thread's steps right behind it: it is logged, with its
      arguments, and nothing else is; with the lock free again the queue has
      changed as the call says. */
  lemma CallAlone<T>(s: State<T>, a: Action<T>, capacity: nat) returns (e: Entry<T>)
    requires Inv(s, capacity) && LetIn(s, a)
    ensures var s' := Run(s, [a] + Advances(a.t, 5));
            && Inv(s', capacity) && s'.Pc(a.t).Idle? && s'.writer == None
            && s'.log == s.log + [e] && e.t == a.t && Logged(e) == Asked(a)
            && s.ring.WellFormed() && s'.ring.WellFormed() && |s.ring.Contents()| <= capacity
            && Apply(e, s.ring.Contents(), capacity) == Some(s'.ring.Contents())
  {
    BeginStep(s, a);
    StepKeeps(s, a, capacity);
    e := AloneFinishes(Step(s, a), a.t, 5, capacity);
    assert ([a] + Advances(a.t, 5))[1..] == Advances(a.t, 5);
    SequentialOneMore(s.log, e, capacity, s.ring.Contents());
    ContentsCount(s.ring);
  }

  lemma PutApplies<T>(e: Entry<T>, x: T, q: seq<T>, q': seq<T>, capacity: nat)
    requires Logged(e) == PutCall(Some(x)) && Apply(e, q, capacity) == Some(q')
    ensures e == PutEntry(e.t, Some(x), if |q| < capacity then Some(x) else None)
    ensures q' == if |q| < capacity then q + [x] else q
  {
  }

  lemma GetApplies<T>(e: Entry<T>, copy: bool, q: seq<T>, q': seq<T>, capacity: nat)
    requires Logged(e) == GetCall(copy) && Apply(e, q, capacity) == Some(q')
    ensures e == GetEntry(e.t, copy, q != [], if q != [] && copy then Some(q[0]) else None)
    ensures q' == if q == [] then [] else q[1..]
  {
  }

  /** The answers in numbers. */
  lemma ReadApplies<T>(e: Entry<T>, query: Query, q: seq<T>, q': seq<T>, capacity: nat)
    requires Logged(e) == ReadCall(query) && Apply(e, q, capacity) == Some(q') && |q| <= capacity
    ensures e == ReadEntry(e.t, query, e.value) && q' == q
    ensures query == Length ==> e.value == |q|
    ensures query == Available ==> e.value == capacity - |q|
    ensures query == Capacity ==> e.value == capacity
    ensures query == IsEmpty ==> e.value == if q == [] then 1 else 0
    ensures query == IsFull ==> e.value == if |q| == capacity then 1 else 0
  {
  }

  /** A put of an item appends it exactly if there is room. */
  lemma PutAlone<T>(s: State<T>, t: Tid, x: T, capacity: nat)
    requires Inv(s, capacity) && s.Pc(t) == Idle && s.writer == None && s.readers == {}
    ensures var s' := Run(s, [Action.BeginPut(t, Some(x))] + Advances(t, 5));
            && s.ring.WellFormed() && s'.ring.WellFormed() && s'.Pc(t) == Idle && s'.writer == None
            && var room := |s.ring.Contents()| < capacity;
               && s'.log == s.log + [PutEntry(t, Some(x), if room then Some(x) else None)]
               && s'.ring.Contents() == if room then s.ring.Contents() + [x] else s.ring.Contents()
  {
    var a := Action.BeginPut(t, Some(x));
    var e := CallAlone(s, a, capacity);
    PutApplies(e, x, s.ring.Contents(), Run(s, [a] + Advances(t, 5)).ring.Contents(), capacity);
  }

  /** A get, or a pop, takes the head exactly if there is one, and copies it if
      it can. */
  lemma GetAlone<T>(s: State<T>, t: Tid, copy: bool, pop: bool, capacity: nat)
    requires Inv(s, capacity) && s.Pc(t) == Idle && s.writer == None && s.readers == {}
    ensures var begin := if pop then Action.BeginPop(t, copy) else Action.BeginGet(t, copy);
            var s' := Run(s, [begin] + Advances(t, 5));
            && s.ring.WellFormed() && s'.ring.WellFormed() && s'.Pc(t) == Idle && s'.writer == None
            && var q := s.ring.Contents();
               && s'.log == s.log + [GetEntry(t, copy, q != [], if q != [] && copy then Some(q[0]) else None)]
               && s'.ring.Contents() == if q == [] then [] else q[1..]
  {
    var a := if pop then Action.BeginPop(t, copy) else Action.BeginGet(t, copy);
    var e := CallAlone(s, a, capacity);
    GetApplies(e, copy, s.ring.Contents(), Run(s, [a] + Advances(t, 5)).ring.Contents(), capacity);
  }

  /** An accessor answers from the stored items and changes nothing, with other
      readers inside too. */
  lemma ReadAlone<T>(s: State<T>, t: Tid, query: Query, capacity: nat) returns (value: nat)
    requires Inv(s, capacity) && s.Pc(t) == Idle && s.writer == None
    ensures var s' := Run(s, [Action.BeginRead(t, query)] + Advances(t, 5));
            && s.ring.WellFormed() && s'.ring.WellFormed() && s'.Pc(t) == Idle && s'.writer == None
            && s'.ring.Contents() == s.ring.Contents() && s'.log == s.log + [ReadEntry(t, query, value)]
            && var stored := |s.ring.Contents()|;
               && (query == Length ==> value == stored)
               && (query == Available ==> value == capacity - stored)
               && (query == Capacity ==> value == capacity)
               && (query == IsEmpty ==> value == if stored == 0 then 1 else 0)
               && (query == IsFull ==> value == if stored == capacity then 1 else 0)
  {
    var a := Action.BeginRead(t, query);
    var e := CallAlone(s, a, capacity);
    ReadApplies(e, query, s.ring.Contents(), Run(s, [a] + Advances(t, 5)).ring.Contents(), capacity);
    value := e.value;
  }

  // ----- what a null put appends -----

  /** The slot of the m-th put: one after the other around the ring. */
  function SlotOfPut(m: nat, n: nat): (i: nat)
    requires n > 0
    ensures i < n
  {
    if m == 0 then 0 else Succ(SlotOfPut(m - 1, n), n)
  }

  lemma {:induction false} LaterSlot(m: nat, d: nat, n: nat)
    requires d <= n && n > 0
    ensures SlotOfPut(m + d, n) == Plus(SlotOfPut(m, n), d, n)
  {
    if d > 0 {
      LaterSlot(m, d - 1, n);
    }
  }

  /** The slots after a sequence of puts. */
  ghost function Filled<T>(slots: seq<T>, items: seq<T>): (filled: seq<T>)
    requires |slots| > 0
    ensures |filled| == |slots|
  {
    if items == [] then slots else
      var m := |items| - 1;
      Filled(slots, items[..m])[SlotOfPut(m, |slots|) := items[m]]
  }

  lemma FilledOneMore<T>(slots: seq<T>, items: seq<T>, x: T)
    requires |slots| > 0
    ensures Filled(slots, items + [x]) == Filled(slots, items)[SlotOfPut(|items|, |slots|) := x]
  {
    var more := items + [x];
    assert more[..|items|] == items && more[|items|] == x && |more| == |items| + 1;
  }

  /** The latest puts still stand in their slots. */
  lemma {:induction false} FilledLate<T>(slots: seq<T>, items: seq<T>, k: nat)
    requires |slots| > 0 && k < |items| <= k + |slots|
    ensures Filled(slots, items)[SlotOfPut(k, |slots|)] == items[k]
  {
    var m := |items| - 1;
    if k < m {
      LaterSlot(k, m - k, |slots|);
      FilledLate(slots, items[..m], k);
    }
  }

  /** A slot not yet reached is as it was. */
  lemma {:induction false} FilledEarly<T>(slots: seq<T>, items: seq<T>, k: nat)
    requires |items| <= k < |slots|
    ensures SlotOfPut(k, |slots|) == k && Filled(slots, items)[k] == slots[k]
  {
    LaterSlot(0, k, |slots|);
    if items != [] {
      LaterSlot(0, |items| - 1, |slots|);
      FilledEarly(slots, items[..|items| - 1], k);
    }
  }

  /** What the slot for the next put holds: what was put there one round ago. */
  ghost function Leftover<T>(slots: seq<T>, items: seq<T>): T
    requires |slots| > 0
  {
    if |items| < |slots| then slots[|items|] else items[|items| - |slots|]
  }

  lemma FilledNext<T>(slots: seq<T>, items: seq<T>)
    requires |slots| > 0
    ensures Filled(slots, items)[SlotOfPut(|items|, |slots|)] == Leftover(slots, items)
  {
    var n := |slots|;
    if |items| < n {
      FilledEarly(slots, items, |items|);
    } else {
      var k := |items| - n;
      LaterSlot(k, n, n);
      assert SlotOfPut(k + n, n) == SlotOfPut(k, n);
      FilledLate(slots, items, k);
    }
  }

  /** The slots are those that the logged puts have filled, from `slots` on,
      and the tail stands on the next one. */
  ghost predicate Traced<T>(s: State<T>, slots: seq<T>)
    requires |slots| > 0
  {
    var items := PutItems(s.log);
    && LogTraced(s.log, slots)
    && TracedAt(s.ring, items, slots, if s.writer.Some? then s.Pc(s.writer.value) else Idle)
  }

  ghost predicate LogTraced<T>(log: seq<Entry<T>>, slots: seq<T>)
    requires |slots| > 0
  {
    forall k :: 0 <= k < |log| && log[k].PutEntry? && log[k].item.None? && log[k].stored.Some? ==>
      log[k].stored.value == Leftover(slots, PutItems(log[..k]))
  }

  ghost predicate TracedAt<T>(r: Ring<T>, items: seq<T>, slots: seq<T>, pc: Pc<T>)
    requires |slots| > 0
  {
    var filled, n := Filled(slots, items), |slots|;
    match pc
    case PutCopied(item, _) =>
      r.t == SlotOfPut(|items|, n) && r.slots == filled[r.t := item.GetOr(Leftover(slots, items))]
    case PutDone(item, Some(x)) =>
      && r.t == SlotOfPut(|items| + 1, n) && r.slots == Filled(slots, items + [x])
      && x == item.GetOr(Leftover(slots, items))
    case _ => r.t == SlotOfPut(|items|, n) && r.slots == filled
  }

  lemma WriterTraced<T>(s: State<T>, t: Tid, items: seq<T>, slots: seq<T>)
    requires Sized(s) && |slots| > 0 && s.Pc(t).Writes() && !s.Pc(t).PutDone? && !s.Pc(t).GetDone?
    requires TracedAt(s.ring, items, slots, s.Pc(t))
    ensures TracedAt(Next(s, t).ring, items, slots, Next(s, t).Pc(t))
  {
    FilledNext(slots, items);
    if s.Pc(t).PutCopied? {
      FilledOneMore(slots, items, s.ring.slots[s.ring.t]);
    }
  }

  lemma LogOneMore<T>(log: seq<Entry<T>>, e: Entry<T>, slots: seq<T>)
    requires |slots| > 0 && LogTraced(log, slots)
    requires e.PutEntry? && e.item.None? && e.stored.Some? ==> e.stored.value == Leftover(slots, PutItems(log))
    ensures LogTraced(log + [e], slots)
    ensures PutItems(log + [e])
            == if e.PutEntry? && e.stored.Some? then PutItems(log) + [e.stored.value] else PutItems(log)
  {
    var more := log + [e];
    assert more[..|log|] == log;
    forall k | 0 <= k < |more| && more[k].PutEntry? && more[k].item.None? && more[k].stored.Some?
      ensures more[k].stored.value == Leftover(slots, PutItems(more[..k]))
    {
      if k < |log| {
        assert more[..k] == log[..k];
      }
    }
  }

  lemma ReleaseTraced<T>(s: State<T>, t: Tid, slots: seq<T>)
    requires Sized(s) && |slots| > 0 && s.writer == Some(t) && (s.Pc(t).PutDone? || s.Pc(t).GetDone?)
    requires Traced(s, slots)
    ensures Traced(Next(s, t), slots)
  {
    var pc := s.Pc(t);
    LogOneMore(s.log, EntryOf(t, pc), slots);
    ReleaseSteps(s, t);
  }

  lemma ReaderTraced<T>(s: State<T>, t: Tid, slots: seq<T>)
    requires Sized(s) && |slots| > 0 && s.writer == None && s.Pc(t).Reads() && Traced(s, slots)
    ensures Traced(Next(s, t), slots)
  {
    var s' := Next(s, t);
    if s.Pc(t).ReadDone? {
      LogOneMore(s.log, EntryOf(t, s.Pc(t)), slots);
      ReleaseSteps(s, t);
    }
    assert s'.ring == s.ring && s'.writer == None;
  }

  lemma StepTraced<T>(s: State<T>, a: Action<T>, capacity: nat, slots: seq<T>)
    requires Inv(s, capacity) && |slots| > 0 && Traced(s, slots)
    ensures Traced(Step(s, a), slots)
  {
    var pc := s.Pc(a.t);
    if a.Advance? {
      if pc.PutDone? || pc.GetDone? {
        assert pc.Writes();
        ReleaseTraced(s, a.t, slots);
      } else if pc.Writes() {
        WriterTraced(s, a.t, PutItems(s.log), slots);
        WriterSteps(s, a.t, Sequential(s.log, capacity).value);
      } else if pc.Reads() {
        assert a.t in s.readers;
        ReaderTraced(s, a.t, slots);
      }
    }
  }

  lemma {:induction false} RunTraced<T>(s: State<T>, schedule: seq<Action<T>>, capacity: nat, slots: seq<T>)
    requires Inv(s, capacity) && |slots| > 0 && Traced(s, slots)
    ensures Traced(Run(s, schedule), slots)
    decreases |schedule|
  {
    if schedule != [] {
      StepKeeps(s, schedule[0], capacity);
      StepTraced(s, schedule[0], capacity, slots);
      RunTraced(Step(s, schedule[0]), schedule[1..], capacity, slots);
    }
  }

  /** Over every interleaving, a put without an item appends again the item that
      was put one round of the ring before, or what the slot held at first. */
  lemma NullPut<T>(s: State<T>, capacity: nat, itemSize: nat, schedule: seq<Action<T>>, k: nat)
    requires Started(s, capacity, itemSize)
    requires Sized(s) && k < |Run(s, schedule).log|
    requires var e := Run(s, schedule).log[k]; e.PutEntry? && e.item.None? && e.stored.Some?
    ensures var before := PutItems(Run(s, schedule).log[..k]);
            Run(s, schedule).log[k].stored.value
            == if |before| <= capacity then s.ring.slots[|before|] else before[|before| - (capacity + 1)]
  {
    StartedInv(s, capacity, itemSize);
    RunTraced(s, schedule, capacity, s.ring.slots);
  }

  // ----- no call gets stuck while it holds the lock -----

  ghost function StepsLeft<T>(pc: Pc<T>): nat
  {
    match pc
    case Idle => 0
    case PutStart(_) => 4
    case PutRoom(_, _) => 3
    case PutCopied(_, _) => 2
    case PutDone(_, _) => 1
    case GetStart(_) => 5
    case GetSome(_) => 4
    case GetCopied(_, _) => 3
    case GetMoved(_, _) => 2
    case GetDone(_, _, _) => 1
    case ReadStart(_) => 3
    case ReadHead(_, _) => 2
    case ReadDone(_, _) => 1
  }

  /** Each step of a thread inside a call brings it nearer to releasing the
      lock, whatever the others have done. */
  lemma CallsFinish<T>(s: State<T>, t: Tid, capacity: nat)
    requires Inv(s, capacity) && !s.Pc(t).Idle?
    ensures StepsLeft(Next(s, t).Pc(t)) < StepsLeft(s.Pc(t))
  {
    assert s.Pc(t).Writes() || s.Pc(t).Reads();
  }
}
