/** The circular queue as an object: its control block changes in place and
    items are copied into and out of the slots of one buffer. */
module CircularQueues {
  import opened Options
  import opened Words
  import opened ControlBlock
  import opened Ring

  /** The constant fields of the control block. */
  ghost predicate SameLayout(q: Cque, q': Cque)
  {
    (q.NoQueue? && q'.NoQueue?)
    || (q.Cque? && q'.Cque? && q'.begin == q.begin && q'.end == q.end && q'.itemSize == q.itemSize)
  }

  class CircularQueue<T(0)> {
    var m_q: Cque
    const buffer: array<T>

    // the slots that head and tail stand on
    ghost var headSlot: nat
    ghost var tailSlot: nat

    ghost function State(): Ring<T>
      reads this, buffer
    {
      Ring(m_q, headSlot, tailSlot, buffer[..])
    }

    ghost predicate Valid()
      reads this, buffer
    {
      State().WellFormed()
    }

    /** The stored items, head first. */
    ghost function Contents(): seq<T>
      reads this, buffer
      requires Valid()
    {
      State().Contents()
    }

    ghost const capacity: nat := if buffer.Length == 0 then 0 else buffer.Length - 1

    /** The arguments are 32-bit words.  If the slots do not fit, the offsets
        are not those of a queue. */
    constructor (capacity: nat, itemSize: nat)
      requires capacity < U32 && itemSize < U32
      ensures Valid() <==> Fits(capacity, itemSize)
      ensures Valid() ==> Contents() == []
      ensures this.capacity == capacity && m_q == Init(capacity, itemSize) && fresh(buffer)
      ensures headSlot == tailSlot == 0
    {
      m_q := Init(capacity, itemSize);
      buffer := new T[capacity + 1];
      headSlot, tailSlot := 0, 0;
      new;
      InitFits(capacity, itemSize);
    }

    method Clear()
      requires Valid()
      modifies this
      ensures State() == old(State().Clear())
      ensures Valid() && Contents() == []
    {
      if m_q.Cque? {
        m_q := m_q.(head := m_q.begin, tail := m_q.begin);
        headSlot, tailSlot := 0, 0;
      }
    }

    /** Append.  A null item leaves the slot's old bytes as the new item. */
    method Put(item: Option<T>) returns (ok: bool)
      requires Valid()
      modifies this, buffer
      ensures (State(), ok) == old(State().Put(item))
      ensures Valid() && SameLayout(old(m_q), m_q)
      ensures ok <==> |old(Contents())| < capacity
      ensures !ok ==> Contents() == old(Contents())
      ensures ok ==> buffer.Length > 0 && Contents() == old(Contents() + [item.GetOr(buffer[tailSlot])])
      ensures headSlot == old(headSlot)
      ensures tailSlot == old(if ok then Succ(tailSlot, buffer.Length) else tailSlot)
    {
      PutAppends(State(), item);
      if m_q.NoQueue? {
        return false;
      }
      var npos := m_q.Forward(m_q.tail);
      if npos == m_q.head {
        return false;
      }
      SlotAt(m_q, buffer.Length, headSlot, tailSlot, tailSlot);
      if item.Some? {
        buffer[m_q.SlotOf(m_q.tail)] := item.value;
      }
      m_q := m_q.(tail := npos);
      tailSlot := Succ(tailSlot, buffer.Length);
      assert buffer[..] == old(buffer[..][tailSlot := item.GetOr(buffer[tailSlot])]);
      return true;
    }

    /** Remove from the head. */
    method Get() returns (item: Option<T>)
      requires Valid()
      modifies this
      ensures (State(), item) == old(State().Get())
      ensures Valid() && SameLayout(old(m_q), m_q)
      ensures item.None? <==> old(Contents()) == []
      ensures item.None? ==> Contents() == []
      ensures item.Some? ==> old(Contents()) == [item.value] + Contents()
      ensures buffer.Length > 0 && headSlot == old(if item.Some? then Succ(headSlot, buffer.Length) else headSlot)
      ensures tailSlot == old(tailSlot)
    {
      GetTakesHead(State());
      if m_q.IsEmpty() {
        return None;
      }
      SlotAt(m_q, buffer.Length, headSlot, tailSlot, headSlot);
      item := Some(buffer[m_q.SlotOf(m_q.head)]);
      m_q := m_q.(head := m_q.Forward(m_q.head));
      headSlot := Succ(headSlot, buffer.Length);
    }

    /** push as written.  A null item leaves the slot's old bytes as the new
        item.  On a full queue it reports success and leaves the queue empty.  At
        begin, an item larger than the header makes the target no slot at all:
        the head leaves the slots, and so does the copy of the item, if any. */
    method Push(item: Option<T>) returns (ok: bool, stray: bool)
      requires Valid()
      modifies this, buffer
      ensures stray <==> old(m_q.Cque? && m_q.head == m_q.begin && m_q.itemSize > HEADER)
      ensures ok <==> capacity > 0
      ensures SameLayout(old(m_q), m_q)
      ensures !stray ==> Valid()
      ensures !ok ==> State() == old(State())
      ensures ok && !stray && |old(Contents())| < capacity ==>
        && buffer.Length > 0 && State() == old(State().Push(item).0)
        && Contents() == old([item.GetOr(buffer[Pred(headSlot, buffer.Length)])] + Contents())
      ensures ok && !stray && |old(Contents())| == capacity ==> Contents() == []
      ensures stray ==> m_q.tail == old(m_q.tail) && forall i: nat :: i < buffer.Length ==> m_q.At(i) != m_q.head
    {
      if m_q.NoQueue? {
        return false, false;
      }
      var pos := m_q.BackInPush(m_q.head);
      if m_q.head == m_q.begin && m_q.itemSize > HEADER {
        PushStrays(pos);
        m_q := m_q.(head := pos);
        assert forall i: nat :: i < buffer.Length ==> m_q.At(i) == old(m_q).At(i);
        return true, true;
      }
      ghost var stored := item.GetOr(buffer[Pred(headSlot, buffer.Length)]);
      PushTarget(pos, item);
      if pos == m_q.head {
        return false, false;
      }
      if item.Some? {
        buffer[m_q.SlotOf(pos)] := item.value;
      }
      m_q := m_q.(head := pos);
      headSlot := Pred(headSlot, buffer.Length);
      assert buffer[..] == old(buffer[..][Pred(headSlot, buffer.Length) := stored]);
      return true, false;
    }

    lemma PushStrays(pos: nat)
      requires Valid() && m_q.Cque? && pos == m_q.BackInPush(m_q.head)
      requires m_q.head == m_q.begin && m_q.itemSize > HEADER
      ensures forall i: nat :: i < buffer.Length ==> m_q.At(i) != pos
    {
      forall i: nat | i < buffer.Length ensures m_q.At(i) != pos {
        BelowBegin(m_q, buffer.Length, headSlot, tailSlot, i);
        TimesMono(2, buffer.Length, m_q.itemSize);
      }
    }

    lemma PushTarget(pos: nat, item: Option<T>)
      requires Valid() && m_q.Cque? && pos == m_q.BackInPush(m_q.head)
      requires m_q.head != m_q.begin || m_q.itemSize <= HEADER
      ensures var p := Pred(headSlot, buffer.Length);
              && pos == m_q.Back(m_q.head) == m_q.At(p) != m_q.head && pos >= m_q.begin && m_q.SlotOf(pos) == p
              && var x := item.GetOr(buffer[p]);
                 var r := Ring(m_q.(head := pos), p, tailSlot, buffer[..][p := x]);
                 r.WellFormed()
                 && if |Contents()| < capacity then r == State().Push(item).0 && r.Contents() == [x] + Contents()
                    else r.Contents() == []
    {
      var n, p := buffer.Length, Pred(headSlot, buffer.Length);
      PushMoveExact(m_q, n, headSlot, tailSlot);
      BackSlot(m_q, n, headSlot, tailSlot, headSlot);
      SlotAt(m_q, n, headSlot, tailSlot, p);
      AtInjective(m_q, headSlot, p);
      ContentsCount(State());
      PushPrepends(State(), item);
    }

    /** pop as written.  With the tail at begin it reads and moves below the
        slots. */
    method Pop() returns (item: Option<T>, stray: bool)
      requires Valid()
      modifies this
      ensures stray <==> old(Contents()) != [] && old(m_q.tail == m_q.begin)
      ensures !stray ==> (State(), item) == old(State().Pop())
      ensures !stray ==> Valid()
      ensures SameLayout(old(m_q), m_q)
      ensures !stray ==> (item.None? <==> old(Contents()) == [])
      ensures !stray && item.None? ==> Contents() == []
      ensures !stray && item.Some? ==> old(Contents()) == Contents() + [item.value]
      ensures headSlot == old(headSlot)
      ensures !stray ==>
        buffer.Length > 0 && tailSlot == old(if item.Some? then Pred(tailSlot, buffer.Length) else tailSlot)
      ensures stray ==> m_q.head == old(m_q.head) && forall i: nat :: i < buffer.Length ==> m_q.At(i) != m_q.tail
    {
      PopTakesLast(State());
      if m_q.IsEmpty() {
        return None, false;
      }
      PopMoveExact(m_q, buffer.Length, headSlot, tailSlot);
      var pos := Sub32(m_q.tail, m_q.itemSize);
      if m_q.tail == m_q.begin {
        PopStrays(pos);
        m_q := m_q.(tail := pos);
        assert forall i: nat :: i < buffer.Length ==> m_q.At(i) == old(m_q).At(i);
        return None, true;
      }
      BackSlot(m_q, buffer.Length, headSlot, tailSlot, tailSlot);
      tailSlot := Pred(tailSlot, buffer.Length);
      SlotAt(m_q, buffer.Length, headSlot, old(tailSlot), tailSlot);
      item := Some(buffer[m_q.SlotOf(pos)]);
      m_q := m_q.(tail := pos);
      return item, false;
    }

    lemma PopStrays(pos: nat)
      requires Valid() && m_q.Cque? && m_q.tail == m_q.begin && pos == Sub32(m_q.tail, m_q.itemSize)
      ensures forall i: nat :: i < buffer.Length ==> m_q.At(i) != pos
    {
      forall i: nat | i < buffer.Length ensures m_q.At(i) != pos {
        BelowBegin(m_q, buffer.Length, headSlot, tailSlot, i);
      }
    }

    /** pop with the wrap of last(): it works wherever the tail stands. */
    method PopWrapped() returns (item: Option<T>)
      requires Valid()
      modifies this
      ensures (State(), item) == old(State().Pop())
      ensures Valid() && SameLayout(old(m_q), m_q)
      ensures item.None? <==> old(Contents()) == []
      ensures item.None? ==> Contents() == []
      ensures item.Some? ==> old(Contents()) == Contents() + [item.value]
      ensures headSlot == old(headSlot)
    {
      PopTakesLast(State());
      if m_q.IsEmpty() {
        return None;
      }
      BackSlot(m_q, buffer.Length, headSlot, tailSlot, tailSlot);
      tailSlot := Pred(tailSlot, buffer.Length);
      SlotAt(m_q, buffer.Length, headSlot, old(tailSlot), tailSlot);
      var pos := m_q.Back(m_q.tail);
      item := Some(buffer[m_q.SlotOf(pos)]);
      m_q := m_q.(tail := pos);
    }

    /** The tail stands as many slots after the head as items are stored. */
    lemma TailPosition()
      requires Valid()
      ensures |Contents()| <= capacity < buffer.Length
      ensures tailSlot == Plus(headSlot, |Contents()|, buffer.Length)
    {
      ContentsCount(State());
    }

    lemma TailAtBegin()
      requires Valid() && m_q.Cque?
      ensures m_q.tail == m_q.begin <==> tailSlot == 0
    {
      AtInjective(m_q, tailSlot, 0);
    }

    /** Items are stored and the tail is past begin: pop as written is exact. */
    lemma PopReady()
      requires Valid() && Contents() != [] && tailSlot > 0
      ensures !m_q.IsEmpty() && m_q.tail != m_q.begin
    {
      ContentsCount(State());
      AtInjective(m_q, tailSlot, 0);
    }

    // ----- counts -----

    method Length() returns (n: nat)
      requires Valid()
      ensures n == |Contents()| <= capacity < buffer.Length
    {
      Counts(m_q, buffer.Length, headSlot, tailSlot);
      n := m_q.Length();
    }

    method Available() returns (n: nat)
      requires Valid()
      ensures n == capacity - |Contents()|
    {
      Counts(m_q, buffer.Length, headSlot, tailSlot);
      n := m_q.Available();
    }

    // ----- pointers into the queue -----

    /** The cursor on the k-th stored item. */
    ghost function CursorAt(k: nat): (cursor: nat)
      reads this, buffer
      requires Valid() && k < |Contents()|
      ensures cursor != NULL
    {
      Cursor(m_q, buffer.Length, headSlot, k)
    }

    lemma CursorMoves(k: nat)
      requires Valid() && k < |Contents()|
      ensures m_q.PeekNext(CursorAt(k)) == if k + 1 < |Contents()| then CursorAt(k + 1) else NULL
      ensures m_q.PeekPrev(CursorAt(k)) == if k > 0 then CursorAt(k - 1) else NULL
    {
      CursorSteps(m_q, buffer.Length, headSlot, tailSlot, k);
    }

    lemma CursorEnds()
      requires Valid()
      ensures m_q.Peek() == if Contents() == [] then NULL else CursorAt(0)
      ensures m_q.Last() == if Contents() == [] then NULL else CursorAt(|Contents()| - 1)
    {
      ContentsCount(State());
      if Contents() != [] {
        CursorSteps(m_q, buffer.Length, headSlot, tailSlot, 0);
      }
    }

    /** The item under a cursor. */
    method Read(cursor: nat, ghost k: nat) returns (item: T)
      requires Valid() && k < |Contents()| && cursor == CursorAt(k)
      ensures item == Contents()[k]
    {
      CursorSteps(m_q, buffer.Length, headSlot, tailSlot, k);
      WindowAt(buffer[..], headSlot, tailSlot, k);
      item := buffer[m_q.SlotOf(cursor)];
    }

    /** Overwrite the item under a cursor. */
    method Store(cursor: nat, item: T, ghost k: nat)
      requires Valid() && k < |Contents()| && cursor == CursorAt(k)
      modifies buffer
      ensures Valid() && Contents() == old(Contents())[k := item]
    {
      CursorSteps(m_q, buffer.Length, headSlot, tailSlot, k);
      WindowUpdate(buffer[..], headSlot, tailSlot, k, item);
      buffer[m_q.SlotOf(cursor)] := item;
      assert buffer[..] == old(buffer[..])[Plus(headSlot, k, buffer.Length) := item];
    }

    /** The loop from peek() by peek_next reads every stored item, in order. */
    method ItemsForward() returns (items: seq<T>)
      requires Valid()
      ensures items == Contents()
    {
      CursorEnds();
      items := [];
      var peek := m_q.Peek();
      while peek != NULL
        invariant |items| <= |Contents()| && items == Contents()[..|items|]
        invariant peek == if |items| < |Contents()| then CursorAt(|items|) else NULL
        decreases |Contents()| - |items|
      {
        CursorMoves(|items|);
        var item := Read(peek, |items|);
        items, peek := items + [item], m_q.PeekNext(peek);
      }
    }

    /** The loop from last() by peek_prev reads them in exactly the reverse
        order. */
    method ItemsBackward() returns (items: seq<T>)
      requires Valid()
      ensures |items| == |Contents()|
      ensures forall k :: 0 <= k < |items| ==> items[k] == Contents()[|items| - 1 - k]
    {
      CursorEnds();
      items := [];
      var peek := m_q.Last();
      ghost var n := |Contents()|;
      while peek != NULL
        invariant |items| <= n
        invariant forall k :: 0 <= k < |items| ==> items[k] == Contents()[n - 1 - k]
        invariant peek == if |items| < n then CursorAt(n - 1 - |items|) else NULL
        decreases n - |items|
      {
        CursorMoves(n - 1 - |items|);
        var item := Read(peek, n - 1 - |items|);
        items, peek := items + [item], m_q.PeekPrev(peek);
      }
    }
  }
}
