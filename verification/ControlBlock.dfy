/** The control block of the circular queue (`cque_t`): five 32-bit fields in
    front of the item slots.  A pointer into the allocation is modelled by its
    byte offset, which is never 0 for a slot, so 0 stands for the null pointer.
    All additions and subtractions are those of `unsigned`. */
module ControlBlock {
  import opened Words

  const NULL: nat := 0

  /** sizeof(cque_t) */
  const HEADER: nat := 20

  datatype Cque =
    | NoQueue // m_q == 0: capacity zero
    | Cque(begin: nat, end: nat, head: nat, tail: nat, itemSize: nat)
  {
    // ----- the code -----

    /** One item further, as put, get and is_full move an offset. */
    function Forward(offset: nat): nat
      requires Cque?
    {
      var npos := Add32(offset, itemSize);
      if npos == end then begin else npos
    }

    /** One item back, as last() does it. */
    function Back(offset: nat): nat
      requires Cque?
    {
      Sub32(if offset == begin then end else offset, itemSize)
    }

    /** One item back, as push does it. */
    function BackInPush(offset: nat): nat
      requires Cque?
    {
      var pos := Sub32(offset, itemSize);
      if pos < begin then Sub32(end, itemSize) else pos
    }

    predicate IsEmpty() { NoQueue? || head == tail }

    predicate IsFull() { NoQueue? || Forward(tail) == head }

    function Length(): nat
      requires Cque? ==> itemSize > 0
    {
      if NoQueue? then 0 else
        var n := if head <= tail then Sub32(tail, head)
                 else Add32(Sub32(end, head), Sub32(tail, begin));
        n / itemSize
    }

    function Available(): nat
      requires Cque? ==> itemSize > 0
    {
      if NoQueue? then 0 else
        var n := if head > tail then Sub32(head, tail)
                 else Add32(Sub32(end, tail), Sub32(head, begin));
        Sub32(n / itemSize, 1)
    }

    function Capacity(): nat
      requires Cque? ==> itemSize > 0
    {
      if NoQueue? then 0 else Sub32(Sub32(end, begin) / itemSize, 1)
    }

    function Peek(): nat { if IsEmpty() then NULL else head }

    function Last(): nat { if IsEmpty() then NULL else Back(tail) }

    function PeekNext(peek: nat): nat
    {
      if IsEmpty() then NULL
      else if peek == NULL then head
      else if peek < begin || peek >= end then NULL
      else
        var next := Forward(peek);
        if next == tail then NULL else next
    }

    function PeekPrev(peek: nat): nat
    {
      if IsEmpty() then NULL
      else if peek == NULL then Sub32(tail, itemSize)
      else if peek < begin || peek >= end then NULL
      else if peek == head then NULL
      else Back(peek)
    }

    // ----- its meaning -----

    /** Offset of slot i. */
    function At(i: nat): nat
      requires Cque?
    {
      begin + Times(i, itemSize)
    }

    /** The slot an offset is in. */
    function SlotOf(offset: nat): nat
      requires Cque? && itemSize > 0 && begin <= offset
    {
      (offset - begin) / itemSize
    }

    /** The block has n slots, one more than the capacity, with the head on
        slot h and the tail on slot t. */
    ghost predicate Stands(n: nat, h: nat, t: nat)
    {
      && h < n && t < n
      && if n == 1 then NoQueue? else
           && Cque? && itemSize >= 1 && begin == HEADER && end == At(n) && end < U32
           && head == At(h) && tail == At(t)
    }
  }

  /** CircularQueue::init on an object without a block. */
  function Init(capacity: nat, itemSize: nat): Cque
  {
    if capacity == 0 then NoQueue else
      var end := Add32(HEADER, Mul32(itemSize, Add32(capacity, 1)));
      Cque(HEADER, end, HEADER, HEADER, itemSize)
  }

  /** The slot after i, and the slot before i, in a ring of n slots. */
  function Succ(i: nat, n: nat): nat
    requires i < n
  {
    if i + 1 == n then 0 else i + 1
  }

  function Pred(i: nat, n: nat): nat
    requires i < n
  {
    if i == 0 then n - 1 else i - 1
  }

  /** i + k slots on, for k at most once around. */
  function Plus(i: nat, k: nat, n: nat): nat
    requires i < n && k <= n
  {
    if i + k < n then i + k else i + k - n
  }

  function Distance(h: nat, t: nat, n: nat): nat
    requires h < n && t < n
  {
    if h <= t then t - h else n - h + t
  }

  // ----- where the offsets go -----

  lemma SlotAt(q: Cque, n: nat, h: nat, t: nat, i: nat)
    requires q.Cque? && q.Stands(n, h, t) && i < n
    ensures HEADER <= q.At(i) < q.end && q.SlotOf(q.At(i)) == i
  {
    TimesDiv(i, q.itemSize);
    TimesMono(i, n, q.itemSize);
  }

  /** Distinct slots have distinct offsets. */
  lemma AtInjective(q: Cque, i: nat, j: nat)
    requires q.Cque? && q.itemSize >= 1
    ensures q.At(i) == q.At(j) <==> i == j
    ensures q.At(i) < q.At(j) <==> i < j
  {
    TimesMono(if i < j then i else j, if i < j then j else i, q.itemSize);
  }

  /** Moving forward goes to the next slot, around the end; no sum wraps. */
  lemma ForwardSlot(q: Cque, n: nat, h: nat, t: nat, i: nat)
    requires q.Cque? && q.Stands(n, h, t) && i < n
    ensures q.Forward(q.At(i)) == q.At(Succ(i, n))
    ensures q.At(i) + q.itemSize < U32
  {
    TimesMono(i, n, q.itemSize);
    AtInjective(q, i + 1, n);
  }

  /** Moving back as last() does goes to the previous slot, around begin. */
  lemma BackSlot(q: Cque, n: nat, h: nat, t: nat, i: nat)
    requires q.Cque? && q.Stands(n, h, t) && i < n
    ensures q.Back(q.At(i)) == q.At(Pred(i, n))
  {
    TimesMono(i, n, q.itemSize);
    AtInjective(q, i, 0);
  }

  /** The whole allocation, header and spare slot included, is below 2^32
      bytes, and items have a size; no capacity needs no allocation. */
  predicate Fits(capacity: nat, itemSize: nat)
  {
    capacity == 0 || (itemSize >= 1 && HEADER + (capacity + 1) * itemSize < U32)
  }

  /** init lays out exactly the requested number of slots if and only if they
      fit. */
  lemma InitFits(capacity: nat, itemSize: nat)
    requires capacity < U32 && itemSize < U32
    ensures Init(capacity, itemSize).Stands(capacity + 1, 0, 0) <==> Fits(capacity, itemSize)
    ensures Fits(capacity, itemSize)
            <==> capacity == 0 || (itemSize >= 1 && 20 + (capacity + 1) * itemSize < 4294967296)
  {
    if capacity > 0 && itemSize > 0 {
      InitFitsItems(capacity, itemSize);
    }
  }

  lemma InitFitsItems(capacity: nat, itemSize: nat)
    requires 1 <= capacity < U32 && 1 <= itemSize < U32
    ensures Init(capacity, itemSize).Stands(capacity + 1, 0, 0) <==> HEADER + (capacity + 1) * itemSize < U32
  {
    var n := capacity + 1;
    TimesIsProduct(n, itemSize);
    TimesAtLeast(n, itemSize);
    assert itemSize * n == n * itemSize;
    if HEADER + n * itemSize < U32 {
      assert Add32(capacity, 1) == n;
      assert Mul32(itemSize, n) == Times(n, itemSize);
    }
  }

  // ----- counts from offsets -----

  /** The counts the code derives from the offsets are those of the ring, and
      none of their 32-bit sums and differences wraps. */
  lemma Counts(q: Cque, n: nat, h: nat, t: nat)
    requires q.Stands(n, h, t)
    ensures q.Capacity() == n - 1
    ensures q.Length() == Distance(h, t, n) <= q.Capacity()
    ensures q.Length() + q.Available() == q.Capacity()
    ensures q.IsFull() <==> q.Length() == q.Capacity()
    ensures q.IsEmpty() <==> q.Length() == 0
  {
    if q.Cque? {
      LengthCounts(q, n, h, t);
      AvailableCounts(q, n, h, t);
      CapacityCounts(q, n, h, t);
      EmptyFull(q, n, h, t);
    }
  }

  lemma EmptyFull(q: Cque, n: nat, h: nat, t: nat)
    requires q.Stands(n, h, t)
    ensures q.IsFull() <==> Distance(h, t, n) == n - 1
    ensures q.IsEmpty() <==> h == t
  {
    if q.Cque? {
      AtInjective(q, h, t);
      ForwardSlot(q, n, h, t, t);
      AtInjective(q, Succ(t, n), h);
    }
  }

  /** The bytes in use, as length() adds them up. */
  lemma LengthCounts(q: Cque, n: nat, h: nat, t: nat)
    requires q.Cque? && q.Stands(n, h, t)
    ensures q.Length() == Distance(h, t, n)
  {
    AtInjective(q, h, t);
    if h <= t {
      DistanceBytes(q, n, h, t, h, t);
    } else {
      DistanceBytes(q, n, h, t, h, n);
      DistanceBytes(q, n, h, t, 0, t);
      SumFits(n - h, t, n, q.itemSize, q.end);
    }
    TimesDiv(Distance(h, t, n), q.itemSize);
  }

  /** The bytes that are free, as available() adds them up; one slot of them
      is the spare one. */
  lemma AvailableCounts(q: Cque, n: nat, h: nat, t: nat)
    requires q.Cque? && q.Stands(n, h, t)
    ensures q.Available() == n - 1 - Distance(h, t, n)
  {
    var free := n - Distance(h, t, n);
    FreeBytes(q, n, h, t);
    TimesDiv(free, q.itemSize);
    TimesAtLeast(n, q.itemSize);
    OneLess(free);
    assert q.Available() == Sub32(Times(free, q.itemSize) / q.itemSize, 1);
  }

  lemma OneLess(n: nat)
    requires 1 <= n < U32
    ensures Sub32(n, 1) == n - 1
  {
  }

  lemma FreeBytes(q: Cque, n: nat, h: nat, t: nat)
    requires q.Cque? && q.Stands(n, h, t)
    ensures (if q.head > q.tail then Sub32(q.head, q.tail)
             else Add32(Sub32(q.end, q.tail), Sub32(q.head, q.begin)))
            == Times(n - Distance(h, t, n), q.itemSize)
  {
    AtInjective(q, h, t);
    if h > t {
      DistanceBytes(q, n, h, t, t, h);
    } else {
      DistanceBytes(q, n, h, t, t, n);
      DistanceBytes(q, n, h, t, 0, h);
      SumFits(n - t, h, n, q.itemSize, q.end);
    }
  }

  lemma CapacityCounts(q: Cque, n: nat, h: nat, t: nat)
    requires q.Cque? && q.Stands(n, h, t)
    ensures q.Capacity() == n - 1
  {
    DistanceBytes(q, n, h, t, 0, n);
    TimesDiv(n, q.itemSize);
    TimesAtLeast(n, q.itemSize);
  }

  lemma SumFits(i: nat, j: nat, n: nat, size: nat, end: nat)
    requires i + j <= n && Times(n, size) <= end < U32
    ensures Add32(Times(i, size), Times(j, size)) == Times(i + j, size)
  {
    TimesSum(i, j, size);
    TimesMono(i + j, n, size);
  }

  lemma DistanceBytes(q: Cque, n: nat, h: nat, t: nat, i: nat, j: nat)
    requires q.Cque? && q.Stands(n, h, t) && i <= j <= n
    ensures Sub32(q.At(j), q.At(i)) == q.At(j) - q.At(i) == Times(j - i, q.itemSize)
  {
    TimesMono(i, j, q.itemSize);
    TimesMono(j, n, q.itemSize);
    TimesSum(i, j - i, q.itemSize);
  }

  // ----- the written moves against the meant ones -----

  /** push steps back to the previous slot unless it stands at begin and an
      item is larger than the header: there the difference wraps below 2^32. */
  lemma PushMoveExact(q: Cque, n: nat, h: nat, t: nat)
    requires q.Cque? && q.Stands(n, h, t)
    ensures q.BackInPush(q.head) == q.Back(q.head) <==> q.head != q.begin || q.itemSize <= 20
  {
    AtInjective(q, h, 0);
    TimesMono(h, n, q.itemSize);
    TimesMono(1, n, q.itemSize);
    if h > 0 {
      TimesMono(1, h, q.itemSize);
    }
    BelowBegin(q, n, h, t, 0);
  }

  /** pop and peek_prev(0) step back from the tail without the wrap of last(),
      so they agree with it exactly while the tail is not at begin; at begin
      the result is no slot. */
  lemma PopMoveExact(q: Cque, n: nat, h: nat, t: nat)
    requires q.Cque? && q.Stands(n, h, t)
    ensures Sub32(q.tail, q.itemSize) == q.Back(q.tail) <==> q.tail != q.begin
    ensures !q.IsEmpty() ==> (q.PeekPrev(NULL) == q.Last() <==> q.tail != q.begin)
  {
    BelowBegin(q, n, h, t, 0);
  }

  /** An item below begin is never a slot, not even after the difference has
      wrapped into a very large allocation. */
  lemma BelowBegin(q: Cque, n: nat, h: nat, t: nat, i: nat)
    requires q.Cque? && q.Stands(n, h, t) && i < n
    ensures Sub32(q.begin, q.itemSize) != Sub32(q.end, q.itemSize)
    ensures Sub32(q.begin, q.itemSize) != q.At(i)
  {
    TimesMono(i, n, q.itemSize);
    TimesMono(2, n, q.itemSize);
    assert q.itemSize <= HEADER ==> Sub32(q.begin, q.itemSize) == HEADER - q.itemSize;
  }

  // ----- cursors -----

  /** The cursor on the k-th stored item, counted from the head, in a ring of
      n slots with the head on slot h. */
  function Cursor(q: Cque, n: nat, h: nat, k: nat): nat
    requires q.Cque? && h < n && k <= n
  {
    q.At(Plus(h, k, n))
  }

  /** From peek(), peek_next steps through the stored items in order and then
      gives null; peek_prev is its inverse and last() is the final cursor. */
  lemma CursorSteps(q: Cque, n: nat, h: nat, t: nat, k: nat)
    requires q.Stands(n, h, t) && k < Distance(h, t, n)
    ensures q.Cque?
    ensures q.Peek() == Cursor(q, n, h, 0) && q.Last() == Cursor(q, n, h, Distance(h, t, n) - 1)
    ensures q.begin <= Cursor(q, n, h, k) < q.end && q.SlotOf(Cursor(q, n, h, k)) == Plus(h, k, n)
    ensures q.PeekNext(Cursor(q, n, h, k)) == if k + 1 < Distance(h, t, n) then Cursor(q, n, h, k + 1) else NULL
    ensures q.PeekPrev(Cursor(q, n, h, k)) == if k > 0 then Cursor(q, n, h, k - 1) else NULL
  {
    var i := Plus(h, k, n);
    AtInjective(q, h, t);
    SlotAt(q, n, h, t, i);
    ForwardSlot(q, n, h, t, i);
    AtInjective(q, Succ(i, n), t);
    AtInjective(q, i, h);
    BackSlot(q, n, h, t, i);
    BackSlot(q, n, h, t, t);
  }

  /** Without a cursor, peek_next begins at the head; a pointer that is not
      into the slots leads nowhere. */
  lemma CursorStarts(q: Cque, offset: nat)
    ensures q.PeekNext(NULL) == q.Peek()
    ensures q.Cque? && q.begin > 0 && offset > 0 && (offset < q.begin || offset >= q.end) ==>
      q.PeekNext(offset) == 0 && q.PeekPrev(offset) == 0
  {
  }

  /** No slot is visited twice. */
  lemma CursorsDistinct(q: Cque, n: nat, h: nat, t: nat, j: nat, k: nat)
    requires q.Stands(n, h, t) && j < k < Distance(h, t, n)
    ensures q.Cque? && Cursor(q, n, h, j) != Cursor(q, n, h, k)
  {
    CursorSteps(q, n, h, t, j);
    CursorSteps(q, n, h, t, k);
  }
}
