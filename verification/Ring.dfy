/** The ring as a value: a control block and the slots behind it.  Its stored
    items, head first, form a bounded double-ended queue. */
module Ring {
  import opened Options
  import opened Words
  import opened ControlBlock

  // ----- the window of stored slots -----

  function Window<T>(s: seq<T>, h: nat, t: nat): seq<T>
    requires h < |s| && t < |s|
  {
    if h <= t then s[h..t] else s[h..] + s[..t]
  }

  lemma WindowAt<T>(s: seq<T>, h: nat, t: nat, k: nat)
    requires h < |s| && t < |s| && k < Distance(h, t, |s|)
    ensures |Window(s, h, t)| == Distance(h, t, |s|)
    ensures Window(s, h, t)[k] == s[Plus(h, k, |s|)]
  {
  }

  lemma WindowAppend<T>(s: seq<T>, h: nat, t: nat, x: T)
    requires h < |s| && t < |s| && Succ(t, |s|) != h
    ensures Window(s[t := x], h, Succ(t, |s|)) == Window(s, h, t) + [x]
  {
  }

  lemma WindowDropFirst<T>(s: seq<T>, h: nat, t: nat)
    requires h < |s| && t < |s| && h != t
    ensures |Window(s, h, t)| > 0 && s[h] == Window(s, h, t)[0]
    ensures Window(s, Succ(h, |s|), t) == Window(s, h, t)[1..]
  {
  }

  lemma WindowPrepend<T>(s: seq<T>, h: nat, t: nat, x: T)
    requires h < |s| && t < |s| && Pred(h, |s|) != t
    ensures Window(s[Pred(h, |s|) := x], Pred(h, |s|), t) == [x] + Window(s, h, t)
  {
    var p := Pred(h, |s|);
    var s' := s[p := x];
    if h == 0 {
      assert s'[p..] == [x] && s'[..t] == s[h..t];
    } else if h <= t {
      assert s'[p..t] == [x] + s[h..t];
    } else {
      assert s'[p..] == [x] + s[h..] && s'[..t] == s[..t];
    }
  }

  lemma WindowDropLast<T>(s: seq<T>, h: nat, t: nat)
    requires h < |s| && t < |s| && h != t
    ensures |Window(s, h, t)| > 0
    ensures s[Pred(t, |s|)] == Window(s, h, t)[|Window(s, h, t)| - 1]
    ensures Window(s, h, Pred(t, |s|)) == Window(s, h, t)[..|Window(s, h, t)| - 1]
  {
  }

  lemma WindowUpdate<T>(s: seq<T>, h: nat, t: nat, k: nat, x: T)
    requires h < |s| && t < |s| && k < Distance(h, t, |s|)
    ensures |Window(s, h, t)| == Distance(h, t, |s|)
    ensures Window(s[Plus(h, k, |s|) := x], h, t) == Window(s, h, t)[k := x]
  {
  }

  // ----- the free slots -----

  /** The slots from the tail to the head, the next one to be put first. */
  function Free<T>(s: seq<T>, h: nat, t: nat): seq<T>
    requires h < |s| && t < |s|
  {
    if t < h then s[t..h] else s[t..] + s[..h]
  }

  lemma FreeCount<T>(s: seq<T>, h: nat, t: nat)
    requires h < |s| && t < |s|
    ensures |Window(s, h, t)| + |Free(s, h, t)| == |s| && Free(s, h, t) != []
    ensures Free(s, h, t)[0] == s[t] && Free(s, h, t)[|Free(s, h, t)| - 1] == s[Pred(h, |s|)]
  {
  }

  lemma FreeAppend<T>(s: seq<T>, h: nat, t: nat, x: T)
    requires h < |s| && t < |s| && Succ(t, |s|) != h
    ensures Free(s, h, t) != [] && Free(s[t := x], h, Succ(t, |s|)) == Free(s, h, t)[1..]
  {
  }

  lemma FreeDropFirst<T>(s: seq<T>, h: nat, t: nat)
    requires h < |s| && t < |s| && h != t
    ensures Free(s, Succ(h, |s|), t) == Free(s, h, t) + [s[h]]
  {
  }

  lemma FreePrepend<T>(s: seq<T>, h: nat, t: nat, x: T)
    requires h < |s| && t < |s| && Pred(h, |s|) != t
    ensures Free(s, h, t) != []
    ensures Free(s[Pred(h, |s|) := x], Pred(h, |s|), t) == Free(s, h, t)[..|Free(s, h, t)| - 1]
  {
  }

  lemma FreeDropLast<T>(s: seq<T>, h: nat, t: nat)
    requires h < |s| && t < |s| && h != t
    ensures Free(s, h, Pred(t, |s|)) == [s[Pred(t, |s|)]] + Free(s, h, t)
  {
  }

  /** The stored and the free slots, turned back by h, are all the slots from
      the first. */
  lemma ClearCells<T>(s: seq<T>, h: nat, t: nat)
    requires h < |s| && t < |s|
    ensures var cells := Window(s, h, t) + Free(s, h, t);
            |cells| == |s| && cells[|s| - h..] + cells[..|s| - h] == s == Free(s, 0, 0)
  {
    var cells := Window(s, h, t) + Free(s, h, t);
    assert cells == s[h..] + s[..h];
  }

  // ----- the ring -----

  /** h and t are the slots that the offsets head and tail stand on. */
  datatype Ring<T> = Ring(q: Cque, h: nat, t: nat, slots: seq<T>)
  {
    ghost predicate WellFormed()
    {
      q.Stands(|slots|, h, t)
    }

    /** The stored items, head first. */
    ghost function Contents(): seq<T>
      requires WellFormed()
    {
      Window(slots, h, t)
    }

    ghost function Capacity(): nat
      requires WellFormed()
    {
      |slots| - 1
    }

    /** put: a null item leaves the bytes already in the slot. */
    ghost function Put(item: Option<T>): (Ring<T>, bool)
      requires WellFormed()
    {
      if q.NoQueue? then (this, false) else
        var npos := q.Forward(q.tail);
        if npos == q.head then (this, false) else
          (Ring(q.(tail := npos), h, Succ(t, |slots|), slots[t := item.GetOr(slots[t])]), true)
    }

    ghost function Get(): (Ring<T>, Option<T>)
      requires WellFormed()
    {
      if q.IsEmpty() then (this, None) else
        (Ring(q.(head := q.Forward(q.head)), Succ(h, |slots|), t, slots), Some(slots[h]))
    }

    /** push with the full test of the free-slot convention; a null item leaves
        the bytes already in the slot. */
    ghost function Push(item: Option<T>): (Ring<T>, bool)
      requires WellFormed()
    {
      if q.IsFull() then (this, false) else
        var p := Pred(h, |slots|);
        (Ring(q.(head := q.Back(q.head)), p, t, slots[p := item.GetOr(slots[p])]), true)
    }

    /** pop with the wrap of last(). */
    ghost function Pop(): (Ring<T>, Option<T>)
      requires WellFormed()
    {
      if q.IsEmpty() then (this, None) else
        var p := Pred(t, |slots|);
        (Ring(q.(tail := q.Back(q.tail)), h, p, slots), Some(slots[p]))
    }

    ghost function Clear(): Ring<T>
    {
      if q.NoQueue? then this else Ring(q.(head := q.begin, tail := q.begin), 0, 0, slots)
    }
  }

  lemma ContentsCount<T>(r: Ring<T>)
    requires r.WellFormed()
    ensures |r.Contents()| == Distance(r.h, r.t, |r.slots|) <= r.Capacity()
    ensures r.q.IsFull() <==> |r.Contents()| == r.Capacity()
    ensures r.q.IsEmpty() <==> r.Contents() == []
  {
    EmptyFull(r.q, |r.slots|, r.h, r.t);
  }

  lemma PutAppends<T>(r: Ring<T>, item: Option<T>)
    requires r.WellFormed()
    ensures var (r', ok) := r.Put(item);
            && r'.WellFormed() && r'.Capacity() == r.Capacity()
            && (ok <==> |r.Contents()| < r.Capacity())
            && (ok ==> r'.Contents() == r.Contents() + [item.GetOr(r.slots[r.t])])
            && (!ok ==> r' == r)
  {
    ContentsCount(r);
    if r.q.Cque? {
      ForwardSlot(r.q, |r.slots|, r.h, r.t, r.t);
      AtInjective(r.q, Succ(r.t, |r.slots|), r.h);
      if Succ(r.t, |r.slots|) != r.h {
        WindowAppend(r.slots, r.h, r.t, item.GetOr(r.slots[r.t]));
      }
    }
  }

  lemma GetTakesHead<T>(r: Ring<T>)
    requires r.WellFormed()
    ensures var (r', item) := r.Get();
            && r'.WellFormed() && r'.Capacity() == r.Capacity()
            && (item.None? <==> r.Contents() == [])
            && (item.Some? ==> r.Contents() == [item.value] + r'.Contents())
            && (item.None? ==> r' == r)
  {
    ContentsCount(r);
    if !r.q.IsEmpty() {
      ForwardSlot(r.q, |r.slots|, r.h, r.t, r.h);
      WindowDropFirst(r.slots, r.h, r.t);
    }
  }

  lemma PushPrepends<T>(r: Ring<T>, item: Option<T>)
    requires r.WellFormed()
    ensures var (r', ok) := r.Push(item);
            && r'.WellFormed() && r'.Capacity() == r.Capacity()
            && (ok <==> |r.Contents()| < r.Capacity())
            && (ok ==> r'.Contents() == [item.GetOr(r.slots[Pred(r.h, |r.slots|)])] + r.Contents())
            && (!ok ==> r' == r)
  {
    ContentsCount(r);
    if !r.q.IsFull() {
      BackSlot(r.q, |r.slots|, r.h, r.t, r.h);
      WindowPrepend(r.slots, r.h, r.t, item.GetOr(r.slots[Pred(r.h, |r.slots|)]));
    }
  }

  lemma PopTakesLast<T>(r: Ring<T>)
    requires r.WellFormed()
    ensures var (r', item) := r.Pop();
            && r'.WellFormed() && r'.Capacity() == r.Capacity()
            && (item.None? <==> r.Contents() == [])
            && (item.Some? ==> r.Contents() == r'.Contents() + [item.value])
            && (item.None? ==> r' == r)
  {
    ContentsCount(r);
    if !r.q.IsEmpty() {
      BackSlot(r.q, |r.slots|, r.h, r.t, r.t);
      WindowDropLast(r.slots, r.h, r.t);
    }
  }

  lemma ClearEmpties<T>(r: Ring<T>)
    requires r.WellFormed()
    ensures r.Clear().WellFormed() && r.Clear().Capacity() == r.Capacity()
    ensures r.Clear().Contents() == []
  {
  }
}
