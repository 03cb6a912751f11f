/** The event emitter on its two circular queues.  Every public call holds the
    write lock from beginning to end, so calls are atomic. */
module EventEmitters {
  import opened Options
  import opened Words
  import opened ControlBlock
  import opened Ring
  import opened CircularQueues
  import opened EventModel
  import opened Compaction

  // ----- rotation as a filter -----

  lemma {:induction false} KeptFirst(bs: seq<EventBlock>, k: nat, p: nat, listener: nat)
    requires k < |bs|
    ensures Kept(bs[..k + 1], p, listener)
            == if Matches(bs[k], p, listener) then Kept(bs[..k], p, listener) else Kept(bs[..k], p, listener) + [bs[k]]
    ensures Live(bs[..k + 1]) == if bs[k].name == NULL then Live(bs[..k]) else Live(bs[..k]) + [bs[k]]
  {
    assert bs[..k + 1][..k] == bs[..k];
  }

  lemma PlusOne(h: nat, k: nat, n: nat)
    requires h < n && k < n
    ensures Succ(Plus(h, k, n), n) == Plus(h, k + 1, n)
  {
  }

  /** The ring after k steps of a rotation that has kept `done`. */
  ghost predicate Rotated(q: CircularQueue<EventBlock>, bs: seq<EventBlock>, k: nat, done: seq<EventBlock>)
    reads q, q.buffer
  {
    && q.Valid() && k <= |bs| < q.buffer.Length && |done| <= k
    && q.Contents() == bs[k..] + done
  }

  /** One step of off's rotation: the head block is taken and, unless it
      matches, put back; there is always room, since one has just been taken. */
  method RotateOne(q: CircularQueue<EventBlock>, name: nat, listener: nat, ghost bs: seq<EventBlock>, ghost k: nat)
      returns (eb: EventBlock)
    requires k < |bs| && Rotated(q, bs, k, Kept(bs[..k], name, listener))
    modifies q, q.buffer
    ensures eb == bs[k] && Rotated(q, bs, k + 1, Kept(bs[..k + 1], name, listener))
    ensures SameLayout(old(q.m_q), q.m_q) && q.headSlot == old(Succ(q.headSlot, q.buffer.Length))
  {
    ghost var done := Kept(bs[..k], name, listener);
    KeptFirst(bs, k, name, listener);
    eb := RotateTake(q, bs, k, done);
    if eb.name == name && eb.listener == listener {
      return;
    }
    RotateBack(q, bs, k + 1, done, eb);
  }

  method RotateTake(q: CircularQueue<EventBlock>, ghost bs: seq<EventBlock>, ghost k: nat, ghost done: seq<EventBlock>)
      returns (eb: EventBlock)
    requires k < |bs| && Rotated(q, bs, k, done)
    modifies q
    ensures eb == bs[k] && Rotated(q, bs, k + 1, done)
    ensures SameLayout(old(q.m_q), q.m_q) && q.headSlot == old(Succ(q.headSlot, q.buffer.Length))
  {
    var item := q.Get();
    eb := item.value;
    RotateStep(bs, k, done, eb, q.Contents());
  }

  method RotateBack(q: CircularQueue<EventBlock>, ghost bs: seq<EventBlock>, ghost k: nat, ghost done: seq<EventBlock>,
                    eb: EventBlock)
    requires |done| < k && Rotated(q, bs, k, done)
    modifies q, q.buffer
    ensures Rotated(q, bs, k, done + [eb])
    ensures SameLayout(old(q.m_q), q.m_q) && q.headSlot == old(q.headSlot)
  {
    assert bs[k..] + done + [eb] == bs[k..] + (done + [eb]);
    var back := q.Put(Some(eb));
    assert back;
  }

  lemma RotateStep(bs: seq<EventBlock>, k: nat, done: seq<EventBlock>, b: EventBlock, rest: seq<EventBlock>)
    requires k < |bs| && bs[k..] + done == [b] + rest
    ensures b == bs[k] && rest == bs[k + 1..] + done
  {
    assert (bs[k..] + done)[0] == bs[k];
    assert (bs[k..] + done)[1..] == bs[k + 1..] + done;
  }

  /** Rotates the ring once through itself, leaving out the blocks that match
      the pointer and the listener; counts the other users of the pointer. */
  method RotateOut(q: CircularQueue<EventBlock>, name: nat, listener: nat) returns (nameCount: nat)
    requires q.Valid()
    modifies q, q.buffer
    ensures q.Valid() && SameLayout(old(q.m_q), q.m_q)
    ensures q.Contents() == Kept(old(q.Contents()), name, listener)
    ensures nameCount == Uses(q.Contents(), name)
    ensures |old(q.Contents())| <= q.buffer.Length
    ensures q.headSlot == old(Plus(q.headSlot, |q.Contents()|, q.buffer.Length))
  {
    ghost var bs := q.Contents();
    var len := q.Length();
    nameCount := RotateMatching(q, name, listener, len, bs);
  }

  method RotateMatching(q: CircularQueue<EventBlock>, name: nat, listener: nat, len: nat, ghost bs: seq<EventBlock>)
      returns (nameCount: nat)
    requires len == |bs| && Rotated(q, bs, 0, [])
    modifies q, q.buffer
    ensures q.Valid() && SameLayout(old(q.m_q), q.m_q) && q.Contents() == Kept(bs, name, listener)
    ensures nameCount == Uses(q.Contents(), name)
    ensures q.headSlot == old(Plus(q.headSlot, |bs|, q.buffer.Length))
  {
    ghost var head, k := q.headSlot, 0;
    var left := len;
    nameCount := 0;
    while left > 0
      invariant k + left == |bs| && Rotated(q, bs, k, Kept(bs[..k], name, listener))
      invariant SameLayout(old(q.m_q), q.m_q) && q.headSlot == Plus(head, k, q.buffer.Length)
      invariant nameCount == Uses(Kept(bs[..k], name, listener), name)
    {
      left := left - 1;
      PlusOne(head, k, q.buffer.Length);
      UsesKept(bs, k, name, listener);
      var eb := RotateOne(q, name, listener, bs, k);
      if eb.name == name && eb.listener != listener {
        nameCount := nameCount + 1;
      }
      k := k + 1;
    }
    assert bs[..k] == bs;
  }

  lemma UsesKept(bs: seq<EventBlock>, k: nat, name: nat, listener: nat)
    requires k < |bs|
    ensures Uses(Kept(bs[..k + 1], name, listener), name)
            == Uses(Kept(bs[..k], name, listener), name)
               + if bs[k].name == name && bs[k].listener != listener then 1 else 0
  {
    KeptFirst(bs, k, name, listener);
    var kept := Kept(bs[..k], name, listener);
    assert (kept + [bs[k]])[..|kept|] == kept;
  }

  /** The ring when emit's walk has passed k blocks. */
  function Walked(bs: seq<EventBlock>, k: nat, p: nat): seq<EventBlock>
    requires k <= |bs|
  {
    Fired(bs[..k], p) + bs[k..]
  }

  lemma WalkEnds(w: string, bs: seq<EventBlock>, p: nat)
    ensures Walked(bs, 0, p) == bs && Calls(w, bs[..0], p) == []
    ensures Walked(bs, |bs|, p) == Fired(bs, p) && Calls(w, bs[..|bs|], p) == Calls(w, bs, p)
  {
    assert bs[..|bs|] == bs;
  }

  /** One step of emit's walk over the ring. */
  lemma WalkStep(w: string, bs: seq<EventBlock>, k: nat, p: nat)
    requires k < |bs|
    ensures |Walked(bs, k, p)| == |bs| && Walked(bs, k, p)[k] == bs[k]
    ensures Walked(bs, k, p)[k := AfterCall(bs[k], p)] == Walked(bs, k + 1, p)
    ensures Calls(w, bs[..k + 1], p) == Calls(w, bs[..k], p) + CallOf(w, bs[k], p)
  {
    assert bs[..k + 1][..k] == bs[..k];
    assert Fired(bs[..k + 1], p) == Fired(bs[..k], p) + [AfterCall(bs[k], p)];
  }

  // ----- compaction -----

  /** The first loop of the compaction drops the tombstones at the head. */
  method TrimHead(q: CircularQueue<EventBlock>)
    requires q.Valid()
    modifies q
    ensures q.Valid() && SameLayout(old(q.m_q), q.m_q) && q.tailSlot == old(q.tailSlot)
    ensures Live(q.Contents()) == Live(old(q.Contents())) && TailDrops(q.Contents()) == TailDrops(old(q.Contents()))
    ensures if q.Contents() == [] then Live(old(q.Contents())) == [] else q.Contents()[0].name != NULL
    ensures |q.Contents()| <= |old(q.Contents())| < q.buffer.Length && q.headSlot < q.buffer.Length
    ensures Plus(q.headSlot, |q.Contents()|, q.buffer.Length) == q.tailSlot
            == old(Plus(q.headSlot, |q.Contents()|, q.buffer.Length))
    ensures TrailingDead(q.Contents()) == TailDrops(old(q.Contents()))
  {
    q.TailPosition();
    q.CursorEnds();
    var peek := q.m_q.Peek();
    while peek != NULL
      invariant q.Valid() && SameLayout(old(q.m_q), q.m_q) && q.tailSlot == old(q.tailSlot)
      invariant peek == if q.Contents() == [] then NULL else q.CursorAt(0)
      invariant Live(q.Contents()) == Live(old(q.Contents())) && TailDrops(q.Contents()) == TailDrops(old(q.Contents()))
      invariant |q.Contents()| <= |old(q.Contents())|
      decreases |q.Contents()|
    {
      ghost var bs := q.Contents();
      var eb := q.Read(peek, 0);
      if eb.name != NULL {
        break;
      }
      var _ := q.Get();
      FirstDead(bs, q.Contents());
      q.CursorEnds();
      peek := q.m_q.Peek();
    }
    q.TailPosition();
    if q.Contents() != [] {
      FirstLive(q.Contents());
    }
  }

  /** The second loop drops the tombstones at the tail.  With the pop of the
      code, which does not wrap, the tail leaves the slots when it has to pass
      begin, and every later access is stray: the loop ends there, unsafe. */
  method TrimTail(q: CircularQueue<EventBlock>, wraps: bool) returns (safe: bool)
    requires q.Valid()
    modifies q
    ensures q.Valid() && SameLayout(old(q.m_q), q.m_q) && q.headSlot == old(q.headSlot)
    ensures safe <==> wraps || TrailingDead(old(q.Contents())) <= old(q.tailSlot)
    ensures safe ==> Live(q.Contents()) == Live(old(q.Contents())) && TrailingDead(q.Contents()) == 0
    ensures safe ==> |q.Contents()| == |old(q.Contents())| - TrailingDead(old(q.Contents()))
  {
    q.CursorEnds();
    var peek := q.m_q.Last();
    ghost var popped := 0;
    while peek != NULL
      invariant q.Valid() && SameLayout(old(q.m_q), q.m_q) && q.headSlot == old(q.headSlot)
      invariant peek == if q.Contents() == [] then NULL else q.CursorAt(|q.Contents()| - 1)
      invariant Live(q.Contents()) == Live(old(q.Contents()))
      invariant popped + TrailingDead(q.Contents()) == TrailingDead(old(q.Contents()))
      invariant popped + |q.Contents()| == |old(q.Contents())|
      invariant !wraps ==> popped + q.tailSlot == old(q.tailSlot)
      decreases |q.Contents()|
    {
      var eb := q.Read(peek, |q.Contents()| - 1);
      if eb.name != NULL {
        break;
      }
      q.TailAtBegin();
      if !wraps && q.m_q.tail == q.m_q.begin {
        return false;
      }
      peek := PopDead(q, wraps);
      popped := popped + 1;
    }
    return true;
  }

  method PopDead(q: CircularQueue<EventBlock>, wraps: bool) returns (peek: nat)
    requires q.Valid() && q.Contents() != [] && q.Contents()[|q.Contents()| - 1].name == NULL
    requires !wraps ==> q.tailSlot > 0
    modifies q
    ensures q.Valid() && SameLayout(old(q.m_q), q.m_q) && q.headSlot == old(q.headSlot)
    ensures Live(q.Contents()) == Live(old(q.Contents()))
    ensures TrailingDead(q.Contents()) + 1 == TrailingDead(old(q.Contents()))
    ensures |q.Contents()| + 1 == |old(q.Contents())|
    ensures peek == if q.Contents() == [] then NULL else q.CursorAt(|q.Contents()| - 1)
    ensures !wraps ==> q.tailSlot == old(q.tailSlot) - 1
  {
    ghost var bs := q.Contents();
    LastDead(bs, bs[..|bs| - 1], bs[|bs| - 1]);
    PopBlock(q, wraps);
    q.CursorEnds();
    peek := q.m_q.Last();
  }

  method PopBlock(q: CircularQueue<EventBlock>, wraps: bool)
    requires q.Valid() && q.Contents() != [] && (!wraps ==> q.tailSlot > 0)
    modifies q
    ensures q.Valid() && SameLayout(old(q.m_q), q.m_q) && q.headSlot == old(q.headSlot)
    ensures q.Contents() == old(q.Contents()[..|q.Contents()| - 1])
    ensures !wraps ==> q.tailSlot == old(q.tailSlot) - 1
  {
    q.TailPosition();
    ghost var bs := q.Contents();
    var last;
    if wraps {
      last := q.PopWrapped();
    } else {
      q.PopReady();
      var stray;
      last, stray := q.Pop();
    }
    assert (q.Contents() + [last.value])[..|bs| - 1] == q.Contents();
  }

  method RotateLive(q: CircularQueue<EventBlock>, ghost bs: seq<EventBlock>, ghost k: nat)
    requires k < |bs| && Rotated(q, bs, k, Live(bs[..k]))
    modifies q, q.buffer
    ensures Rotated(q, bs, k + 1, Live(bs[..k + 1])) && SameLayout(old(q.m_q), q.m_q)
    ensures q.headSlot == old(Succ(q.headSlot, q.buffer.Length))
  {
    ghost var done := Live(bs[..k]);
    KeptFirst(bs, k, 0, 0);
    var eb := RotateTake(q, bs, k, done);
    if eb.name == NULL {
      return;
    }
    RotateBack(q, bs, k + 1, done, eb);
  }

  /** The third loop rotates the ring once through itself and drops every
      tombstone. */
  method TrimInside(q: CircularQueue<EventBlock>)
    requires q.Valid()
    modifies q, q.buffer
    ensures q.Valid() && SameLayout(old(q.m_q), q.m_q) && q.Contents() == Live(old(q.Contents()))
    ensures |old(q.Contents())| < q.buffer.Length
    ensures q.headSlot == old(Plus(q.headSlot, |q.Contents()|, q.buffer.Length))
  {
    ghost var bs := q.Contents();
    var len := q.Length();
    RotateAll(q, bs, len);
  }

  method RotateAll(q: CircularQueue<EventBlock>, ghost bs: seq<EventBlock>, len: nat)
    requires len == |bs| && Rotated(q, bs, 0, [])
    modifies q, q.buffer
    ensures q.Valid() && SameLayout(old(q.m_q), q.m_q) && q.Contents() == Live(bs)
    ensures q.headSlot == old(Plus(q.headSlot, |bs|, q.buffer.Length))
  {
    ghost var head, k := q.headSlot, 0;
    var left := len;
    while left > 0
      invariant k + left == |bs| && Rotated(q, bs, k, Live(bs[..k])) && SameLayout(old(q.m_q), q.m_q)
      invariant q.headSlot == Plus(head, k, q.buffer.Length)
    {
      left := left - 1;
      PlusOne(head, k, q.buffer.Length);
      RotateLive(q, bs, k);
      k := k + 1;
    }
    assert bs[..k] == bs;
  }

  /** __squeez_listeners: exactly the live listeners stay, in order, wherever
      the ring starts.  With pop as written this holds exactly if the blocks to
      pop at the end are no more than the slots the tail stands past begin. */
  method Squeeze(q: CircularQueue<EventBlock>, wraps: bool) returns (safe: bool)
    requires q.Valid()
    modifies q, q.buffer
    ensures q.Valid() && SameLayout(old(q.m_q), q.m_q)
    ensures safe <==> wraps || TailDrops(old(q.Contents())) <= old(q.tailSlot)
    ensures safe ==> q.Contents() == Live(old(q.Contents()))
    ensures |old(q.Contents())| < q.buffer.Length
    ensures safe ==> q.headSlot == old(Plus(q.headSlot, |q.Contents()| - TailDrops(q.Contents()), q.buffer.Length))
  {
    ghost var h, k, d := q.headSlot, |q.Contents()|, TailDrops(q.Contents());
    TrimHead(q);
    ghost var g, m := q.headSlot, |q.Contents()|;
    safe := TrimTail(q, wraps);
    if safe {
      TrimInside(q);
      SameTail(h, k, g, m, d, q.buffer.Length);
    }
  }

  /** A new block is appended; a full ring is compacted first. */
  method AddBlock(q: CircularQueue<EventBlock>, eb: EventBlock, wraps: bool) returns (ok: bool, safe: bool)
    requires q.Valid()
    modifies q, q.buffer
    ensures q.Valid() && SameLayout(old(q.m_q), q.m_q) && |old(q.Contents())| < q.buffer.Length
    ensures safe <==> (|old(q.Contents())| >= q.capacity ==> wraps || TailDrops(old(q.Contents())) <= old(q.tailSlot))
    ensures var room := if |old(q.Contents())| >= q.capacity then Live(old(q.Contents())) else old(q.Contents());
            safe ==> (ok <==> |room| < q.capacity) && q.Contents() == (if ok then room + [eb] else room)
    ensures safe && |old(q.Contents())| >= q.capacity ==>
      q.headSlot == old(Plus(q.headSlot, |q.Contents()| - TailDrops(q.Contents()), q.buffer.Length))
    ensures |old(q.Contents())| < q.capacity ==> q.headSlot == old(q.headSlot)
  {
    q.TailPosition();
    ok, safe := false, true;
    var available := q.Available();
    if available <= 0 {
      safe := Squeeze(q, wraps);
      if !safe {
        return;
      }
    }
    available := q.Available();
    if available <= 0 {
      return;
    }
    ok := q.Put(Some(eb));
  }

  /** What a registration that has a slot for its name does to the ring. */
  lemma OnAdds(v: View, op: Op, h: nat, b: EventBlock)
    requires op.On? && |op.name| <= EVENT_NAME_LENGTH_MAX && |v.blocks| <= v.maxListeners && h <= v.maxListeners
    requires v.Register(op.name).1 < |v.Register(op.name).0|
    requires b == EventBlock(NamePointer(v.Register(op.name).1), op.listener, op.data, op.once)
    ensures var room := if |v.blocks| >= v.maxListeners then Live(v.blocks) else v.blocks;
            var ok := |room| < v.maxListeners;
            && v.Step(op).0 == v.(names := v.Register(op.name).0, blocks := if ok then room + [b] else room)
            && v.Step(op).1.ok == ok
    ensures StepSafe(v, h, op)
            <==> (|v.blocks| >= v.maxListeners ==> TailDrops(v.blocks) <= Plus(h, |v.blocks|, v.maxListeners + 1))
    ensures HeadAfter(v, h, op)
            == if |v.blocks| >= v.maxListeners then Plus(h, |v.blocks| - TailDrops(v.blocks), v.maxListeners + 1) else h
  {
  }

  class EventEmitter {
    const m_names: CircularQueue<string>
    const m_listeners: CircularQueue<EventBlock>

    ghost function View(): View
      reads this, m_names, m_names.buffer, m_listeners, m_listeners.buffer
      requires m_names.Valid() && m_listeners.Valid()
    {
      EventModel.View(m_names.capacity, m_listeners.capacity, m_names.Contents(), m_listeners.Contents())
    }

    /** The name ring is never rotated: its head stays on slot 0. */
    ghost predicate NamesValid()
      reads this, m_names, m_names.buffer
    {
      && m_names.Valid() && m_names.headSlot == 0
      && (m_names.m_q.Cque? ==> m_names.m_q.itemSize == NAME_SIZE)
    }

    ghost predicate Valid()
      reads this, m_names, m_names.buffer, m_listeners, m_listeners.buffer
    {
      && m_names as object != m_listeners as object
      && m_names.buffer as object != m_listeners.buffer as object
      && NamesValid() && m_listeners.Valid()
      && (m_listeners.m_q.Cque? ==> m_listeners.m_q.itemSize == BLOCK_SIZE)
      && View().WellFormed()
    }

    constructor (maxNames: nat, maxListeners: nat)
      requires maxNames < U32 && maxListeners < U32
      ensures Valid() <==> RingsFit(maxNames, maxListeners)
      ensures Valid() ==> View() == Fresh(maxNames, maxListeners)
      ensures fresh(m_names) && fresh(m_names.buffer) && fresh(m_listeners) && fresh(m_listeners.buffer)
      ensures m_listeners.headSlot == m_listeners.tailSlot == 0
    {
      m_names := new CircularQueue<string>(maxNames, NAME_SIZE);
      m_listeners := new CircularQueue<EventBlock>(maxListeners, BLOCK_SIZE);
    }

    // ----- event names -----

    /** The cursor on the k-th name is the pointer of slot k, since the name
        ring is never rotated. */
    lemma NameCursor(k: nat)
      requires NamesValid() && k < |m_names.Contents()|
      ensures m_names.CursorAt(k) == NamePointer(k)
    {
      ContentsCount(m_names.State());
      TimesIsProduct(k, NAME_SIZE);
    }

    method FindEventName(eventName: string) returns (name: nat)
      requires Valid()
      ensures var i := Index(View().names, eventName);
              name == if i < |View().names| then NamePointer(i) else NULL
    {
      ghost var names := m_names.Contents();
      ghost var k := 0;
      m_names.CursorEnds();
      var peek := m_names.m_q.Peek();
      while peek != NULL
        invariant k <= |names| && peek == if k < |names| then m_names.CursorAt(k) else NULL
        invariant Index(names, eventName) == IndexFrom(names, eventName, k)
        decreases |names| - k
      {
        m_names.CursorMoves(k);
        var slot := m_names.Read(peek, k);
        if slot == eventName {
          NameCursor(k);
          return peek;
        }
        peek := m_names.m_q.PeekNext(peek);
        k := k + 1;
      }
      return NULL;
    }

    method RegisterEventName(eventName: string) returns (name: nat)
      requires Valid()
      modifies m_names, m_names.buffer
      ensures Valid()
      ensures var (names', i) := old(View()).Register(eventName);
              && View() == old(View()).(names := names')
              && name == if i < |names'| then NamePointer(i) else NULL
    {
      name := FindEventName(eventName);
      if name == NULL {
        name := ReuseFreeSlot(eventName);
        if name == NULL {
          name := AddSlot(eventName);
        }
      }
    }

    /** The first free slot of the ring takes the name.  The search is the loop
        of FindEventName, for the empty string. */
    method ReuseFreeSlot(eventName: string) returns (name: nat)
      requires Valid()
      modifies m_names.buffer
      ensures Valid()
      ensures var i := old(Index(View().names, ""));
              if i < old(|View().names|)
              then name == NamePointer(i) && View() == old(View().(names := View().names[i := Clip(eventName)]))
              else name == NULL && View() == old(View())
    {
      name := FindEventName("");
      if name != NULL {
        ghost var i := Index(View().names, "");
        NameCursor(i);
        m_names.Store(name, Clip(eventName), i);
      }
    }

    /** A new slot at the end of the ring takes the name, if there is room. */
    method AddSlot(eventName: string) returns (name: nat)
      requires Valid()
      modifies m_names, m_names.buffer
      ensures Valid()
      ensures var names := old(View().names);
              if |names| < old(View().maxNames)
              then name == NamePointer(|names|) && View() == old(View()).(names := names + [Clip(eventName)])
              else name == NULL && View() == old(View())
    {
      name := AppendName(Clip(eventName));
    }

    method AppendName(w: string) returns (name: nat)
      requires NamesValid()
      modifies m_names, m_names.buffer
      ensures NamesValid()
      ensures var names := old(m_names.Contents());
              if |names| < m_names.capacity then name == NamePointer(|names|) && m_names.Contents() == names + [w]
              else name == NULL && m_names.Contents() == names
    {
      var added := m_names.Put(Some(w));
      if !added {
        return NULL;
      }
      m_names.CursorEnds();
      name := m_names.m_q.Last();
      NameCursor(|m_names.Contents()| - 1);
    }

    /** The name to unregister is given by the pointer of its slot, i; the
        search is again the loop of FindEventName. */
    method UnregisterEventName(eventName: nat, ghost i: nat) returns (name: nat)
      requires Valid() && i < |View().names| && eventName == NamePointer(i)
      modifies m_names.buffer
      ensures Valid() && View() == old(View().(names := View().Unregister(View().names[i])))
    {
      NameCursor(i);
      var target := m_names.Read(eventName, i);
      UnregisterKeeps(View(), target);
      name := FindEventName(target);
      if name != NULL {
        ghost var k := Index(View().names, target);
        NameCursor(k);
        m_names.Store(name, "", k);
      }
    }

    // ----- listeners -----

    /** The loop of off on the listener ring. */
    method RemoveListener(name: nat, listener: nat) returns (nameCount: nat)
      requires Valid()
      modifies m_listeners, m_listeners.buffer
      ensures Valid()
      ensures View() == old(View().(blocks := Kept(View().blocks, name, listener)))
      ensures nameCount == Uses(View().blocks, name)
      ensures m_listeners.headSlot
              == old(Plus(m_listeners.headSlot, |View().blocks|, m_listeners.buffer.Length))
    {
      KeptSubset(m_listeners.Contents(), name, listener);
      ContentsCount(m_listeners.State());
      nameCount := RotateOut(m_listeners, name, listener);
    }

    /** The name loses its slot when no listener carries its pointer. */
    method ReleaseName(name: nat, nameCount: nat, ghost i: nat)
      requires Valid() && i < |View().names| && name == NamePointer(i)
      modifies m_names.buffer
      ensures Valid()
      ensures View()
              == old(View().(names := if nameCount == 0 then View().Unregister(View().names[i]) else View().names))
    {
      if nameCount == 0 {
        var _ := UnregisterEventName(name, i);
      }
    }

    method Off(eventName: string, listener: nat) returns (ok: bool)
      requires Valid()
      modifies m_names.buffer, m_listeners, m_listeners.buffer
      ensures Valid()
      ensures (View(), ok) == old(View().Off(eventName, listener))
      ensures |old(View().blocks)| < m_listeners.buffer.Length
      ensures m_listeners.headSlot
              == old(if ok then Plus(m_listeners.headSlot, |View().blocks|, m_listeners.buffer.Length)
                     else m_listeners.headSlot)
    {
      m_listeners.TailPosition();
      var name := FindEventName(eventName);
      if name == NULL {
        return false;
      }
      RemoveName(name, listener, View(), eventName);
      return true;
    }

    /** off, once the name is found. */
    method RemoveName(name: nat, listener: nat, ghost v: View, ghost w: string)
      requires Valid() && v == View()
      requires Index(v.names, w) < |v.names| && name == NamePointer(Index(v.names, w))
      modifies m_names.buffer, m_listeners, m_listeners.buffer
      ensures Valid() && View() == v.Off(w, listener).0
      ensures m_listeners.headSlot == old(Plus(m_listeners.headSlot, |View().blocks|, m_listeners.buffer.Length))
    {
      ghost var i := Index(v.names, w);
      var nameCount := RemoveListener(name, listener);
      ReleaseName(name, nameCount, i);
    }

    /** One step of emit's walk: the listener under the cursor is called if it
        carries the name, and its block becomes a tombstone if it is a once
        registration. */
    method FireOne(name: nat, ghost i: nat, peek: nat, ghost k: nat) returns (calls: seq<Event>)
      requires NamesValid() && m_listeners.Valid()
      requires m_names.buffer as object != m_listeners.buffer as object
      requires i < |m_names.Contents()| && name == NamePointer(i)
      requires k < |m_listeners.Contents()| && peek == m_listeners.CursorAt(k)
      modifies m_listeners.buffer
      ensures m_listeners.Valid()
      ensures m_listeners.Contents() == old(m_listeners.Contents()[k := AfterCall(m_listeners.Contents()[k], name)])
      ensures calls == old(CallOf(m_names.Contents()[i], m_listeners.Contents()[k], name))
    {
      calls := [];
      var eb := m_listeners.Read(peek, k);
      if eb.name == name {
        if eb.listener != NO_LISTENER {
          NameCursor(i);
          var w := m_names.Read(eb.name, i);
          calls := [Event(w, eb.listener, eb.data, eb.once)];
        }
        if eb.once {
          m_listeners.Store(peek, eb.(name := NULL), k);
        }
      }
    }

    /** emit's walk has passed k of the blocks bs, the cursor stands on the next
        one, and w is the name in slot i. */
    ghost predicate Walking(name: nat, i: nat, w: string, bs: seq<EventBlock>, k: nat, peek: nat, calls: seq<Event>)
      reads this, m_names, m_names.buffer, m_listeners, m_listeners.buffer
    {
      && NamesValid() && m_listeners.Valid() && m_names.buffer as object != m_listeners.buffer as object
      && i < |m_names.Contents()| && name == NamePointer(i) && w == m_names.Contents()[i]
      && k <= |bs| && m_listeners.Contents() == Walked(bs, k, name) && calls == Calls(w, bs[..k], name)
      && peek == if k < |bs| then m_listeners.CursorAt(k) else NULL
    }

    method FireNext(name: nat, ghost i: nat, ghost w: string, ghost bs: seq<EventBlock>, ghost k: nat, peek: nat,
                    calls: seq<Event>)
        returns (next: nat, calls': seq<Event>)
      requires Walking(name, i, w, bs, k, peek, calls) && peek != NULL
      modifies m_listeners.buffer
      ensures k < |bs| && Walking(name, i, w, bs, k + 1, next, calls')
    {
      WalkStep(w, bs, k, name);
      var called := FireOne(name, i, peek, k);
      calls' := calls + called;
      m_listeners.CursorMoves(k);
      next := m_listeners.m_q.PeekNext(peek);
    }

    lemma WalkStarts(name: nat, i: nat, w: string, bs: seq<EventBlock>)
      requires NamesValid() && m_listeners.Valid() && m_names.buffer as object != m_listeners.buffer as object
      requires i < |m_names.Contents()| && name == NamePointer(i) && w == m_names.Contents()[i]
      requires bs == m_listeners.Contents()
      ensures Walking(name, i, w, bs, 0, m_listeners.m_q.Peek(), [])
    {
      m_listeners.CursorEnds();
      WalkEnds(w, bs, name);
    }

    lemma WalkDone(name: nat, i: nat, w: string, bs: seq<EventBlock>, k: nat, calls: seq<Event>)
      requires Walking(name, i, w, bs, k, NULL, calls)
      ensures m_listeners.Valid() && m_listeners.Contents() == Fired(bs, name) && calls == Calls(w, bs, name)
    {
      WalkEnds(w, bs, name);
    }

    /** The loop of emit on the listener ring: the listeners of the name are
        called in order, and their once blocks become tombstones. */
    method FireAll(name: nat, ghost i: nat) returns (calls: seq<Event>)
      requires Valid() && i < |View().names| && name == NamePointer(i)
      modifies m_listeners.buffer
      ensures m_listeners.Valid() && m_listeners.Contents() == Fired(old(m_listeners.Contents()), name)
      ensures calls == old(Calls(View().names[i], View().blocks, name))
    {
      ghost var w, bs, k := View().names[i], m_listeners.Contents(), 0;
      WalkStarts(name, i, w, bs);
      calls := [];
      var peek := m_listeners.m_q.Peek();
      while peek != NULL
        invariant k <= |bs| && Walking(name, i, w, bs, k, peek, calls)
        decreases |bs| - k
      {
        peek, calls := FireNext(name, i, w, bs, k, peek, calls);
        k := k + 1;
      }
      WalkDone(name, i, w, bs, k, calls);
    }

    method Emit(eventName: string) returns (ok: bool, calls: seq<Event>)
      requires Valid()
      modifies m_listeners.buffer
      ensures Valid()
      ensures (View(), ok, calls) == old(View().Emit(eventName))
      ensures m_listeners.m_q == old(m_listeners.m_q)
    {
      EmitKeeps(View(), eventName);
      var name := FindEventName(eventName);
      if name == NULL {
        return false, [];
      }
      calls := FireAll(name, Index(View().names, eventName));
      return true, calls;
    }

    /** The end of _on, for the slot that registering the name has given. */
    method AddListener(name: nat, listener: nat, data: int, once: bool, wraps: bool,
                       ghost v: View, ghost op: Op, ghost h: nat)
        returns (ok: bool, safe: bool)
      requires m_listeners.Valid() && h == m_listeners.headSlot
      requires v.blocks == m_listeners.Contents() && v.maxListeners == m_listeners.capacity
      requires op.On? && op.listener == listener && op.data == data && op.once == once
      requires |op.name| <= EVENT_NAME_LENGTH_MAX
      requires var (names', i) := v.Register(op.name); i < |names'| && name == NamePointer(i)
      modifies m_listeners, m_listeners.buffer
      ensures |v.blocks| <= v.maxListeners && h <= v.maxListeners
      ensures m_listeners.Valid() && SameLayout(old(m_listeners.m_q), m_listeners.m_q)
      ensures m_listeners.headSlot <= m_listeners.capacity
      ensures safe <==> wraps || StepSafe(v, h, op)
      ensures safe ==> m_listeners.Contents() == v.Step(op).0.blocks && ok == v.Step(op).1.ok
      ensures safe ==> m_listeners.headSlot == HeadAfter(v, h, op)
    {
      m_listeners.TailPosition();
      var eb := EventBlock(name, listener, data, once);
      ok, safe := AddBlock(m_listeners, eb, wraps);
      OnAdds(v, op, h, eb);
      m_listeners.TailPosition();
    }

    /** _on, compacting with a pop that wraps or with the one in the code.  With
        the latter the call is safe exactly if its compaction, if any, is. */
    method AddRegistration(eventName: string, listener: nat, data: int, once: bool, wraps: bool)
        returns (ok: bool, safe: bool)
      requires Valid()
      modifies m_names, m_names.buffer, m_listeners, m_listeners.buffer
      ensures m_listeners.headSlot <= m_listeners.capacity
      ensures safe <==> wraps || old(StepSafe(View(), m_listeners.headSlot, Op.On(eventName, listener, data, once)))
      ensures safe ==> Valid() && (View(), ok) == old(View().On(eventName, listener, data, once))
      ensures safe ==>
        m_listeners.headSlot == old(HeadAfter(View(), m_listeners.headSlot, Op.On(eventName, listener, data, once)))
    {
      ghost var v, h, op := View(), m_listeners.headSlot, Op.On(eventName, listener, data, once);
      m_listeners.TailPosition();
      OnKeeps(v, eventName, listener, data, once);
      if |eventName| > EVENT_NAME_LENGTH_MAX {
        return false, true;
      }
      var name := RegisterEventName(eventName);
      if name == NULL {
        return false, true;
      }
      ok, safe := AddListener(name, listener, data, once, wraps, v, op, h);
      OnAdds(v, op, h, EventBlock(name, listener, data, once));
    }

    /** on and once. */
    method On(eventName: string, listener: nat, data: int, once: bool) returns (ok: bool, safe: bool)
      requires Valid()
      modifies m_names, m_names.buffer, m_listeners, m_listeners.buffer
      ensures m_listeners.headSlot <= m_listeners.capacity
      ensures safe <==> old(StepSafe(View(), m_listeners.headSlot, Op.On(eventName, listener, data, once)))
      ensures safe ==> Valid() && (View(), ok) == old(View().On(eventName, listener, data, once))
      ensures safe ==>
        m_listeners.headSlot == old(HeadAfter(View(), m_listeners.headSlot, Op.On(eventName, listener, data, once)))
    {
      ok, safe := AddRegistration(eventName, listener, data, once, false);
    }

    /** on and once with the wrap that pop is meant to have. */
    method OnWrapped(eventName: string, listener: nat, data: int, once: bool) returns (ok: bool)
      requires Valid()
      modifies m_names, m_names.buffer, m_listeners, m_listeners.buffer
      ensures Valid()
      ensures (View(), ok) == old(View().On(eventName, listener, data, once))
    {
      var safe;
      ok, safe := AddRegistration(eventName, listener, data, once, true);
    }
  }
}
