/** The two rings of the event emitter as sequences, and what its operations do
    to them.  A name is the pointer of a slot of the name ring, a listener whose
    name pointer is null is a tombstone, a name slot whose string is empty is
    free for reuse. */
module EventModel {
  import opened ControlBlock

  const EVENT_NAME_LENGTH_MAX: nat := 15

  /** sizeof(event_name_t) and, with 64-bit pointers, sizeof(event_block). */
  const NAME_SIZE: nat := 16
  const BLOCK_SIZE: nat := 32

  const NO_LISTENER: nat := 0

  /** Listener functions and data pointers are opaque numbers. */
  datatype EventBlock = EventBlock(name: nat, listener: nat, data: int, once: bool)

  /** The event a listener is called with, its name read through the pointer;
      also one entry of the plain list. */
  datatype Event = Event(name: string, listener: nat, data: int, once: bool)

  datatype Op =
    | On(name: string, listener: nat, data: int, once: bool)
    | Off(name: string, listener: nat)
    | Emit(name: string)

  datatype Out = Out(ok: bool, calls: seq<Event>)

  // ----- pointers to name slots -----

  function NamePointer(i: nat): nat { HEADER + NAME_SIZE * i }

  function NameIndex(p: nat): nat
    requires p >= HEADER
  {
    (p - HEADER) / NAME_SIZE
  }

  predicate PointsInto(p: nat, n: nat)
  {
    p >= HEADER && (p - HEADER) % NAME_SIZE == 0 && NameIndex(p) < n
  }

  lemma PointerRoundTrip(i: nat, n: nat)
    requires i < n
    ensures PointsInto(NamePointer(i), n) && NameIndex(NamePointer(i)) == i && NamePointer(i) != NULL
  {
  }

  // ----- searching and filtering -----

  /** Index of the first w at or after i, or the length. */
  function IndexFrom(s: seq<string>, w: string, i: nat): (k: nat)
    requires i <= |s|
    ensures i <= k <= |s|
    ensures k < |s| ==> s[k] == w
    ensures forall j :: i <= j < k ==> s[j] != w
    decreases |s| - i
  {
    if i == |s| || s[i] == w then i else IndexFrom(s, w, i + 1)
  }

  function Index(s: seq<string>, w: string): nat { IndexFrom(s, w, 0) }

  function Clip(w: string): string
  {
    if |w| <= EVENT_NAME_LENGTH_MAX then w else w[..EVENT_NAME_LENGTH_MAX]
  }

  /** strncpy into a slot of 16 bytes. */
  lemma ClippedName(w: string)
    ensures |w| <= 15 ==> Clip(w) == w
    ensures |w| > 15 ==> |Clip(w)| == 15 && Clip(w) == w[..15]
  {
  }

  predicate Matches(b: EventBlock, p: nat, listener: nat)
  {
    b.name == p && b.listener == listener
  }

  function Kept(bs: seq<EventBlock>, p: nat, listener: nat): seq<EventBlock>
  {
    if bs == [] then [] else
      var b := bs[|bs| - 1];
      var kept := Kept(bs[..|bs| - 1], p, listener);
      if Matches(b, p, listener) then kept else kept + [b]
  }

  /** Number of blocks carrying the name pointer p. */
  function Uses(bs: seq<EventBlock>, p: nat): nat
  {
    if bs == [] then 0 else
      Uses(bs[..|bs| - 1], p) + if bs[|bs| - 1].name == p then 1 else 0
  }

  function Live(bs: seq<EventBlock>): seq<EventBlock>
  {
    if bs == [] then [] else
      var b := bs[|bs| - 1];
      var live := Live(bs[..|bs| - 1]);
      if b.name == NULL then live else live + [b]
  }

  function AfterCall(b: EventBlock, p: nat): EventBlock
  {
    if b.name == p && b.once then b.(name := NULL) else b
  }

  function Fired(bs: seq<EventBlock>, p: nat): seq<EventBlock>
  {
    seq(|bs|, i requires 0 <= i < |bs| => AfterCall(bs[i], p))
  }

  function Seen(names: seq<string>, b: EventBlock): Event
    requires PointsInto(b.name, |names|)
  {
    Event(names[NameIndex(b.name)], b.listener, b.data, b.once)
  }

  predicate PointersOk(n: nat, bs: seq<EventBlock>)
  {
    forall b :: b in bs ==> b.name == NULL || PointsInto(b.name, n)
  }

  /** The calls of an emit whose name pointer is p and whose slot holds w. */
  function Calls(w: string, bs: seq<EventBlock>, p: nat): seq<Event>
  {
    if bs == [] then [] else
      Calls(w, bs[..|bs| - 1], p) + CallOf(w, bs[|bs| - 1], p)
  }

  function CallOf(w: string, b: EventBlock, p: nat): seq<Event>
  {
    if b.name == p && b.listener != NO_LISTENER then [Event(w, b.listener, b.data, b.once)] else []
  }

  // ----- the operations -----

  datatype View = View(maxNames: nat, maxListeners: nat, names: seq<string>, blocks: seq<EventBlock>)
  {
    /** What every call keeps, whatever the names passed in. */
    ghost predicate WellFormed()
    {
      && |names| <= maxNames && |blocks| <= maxListeners
      && (forall i :: 0 <= i < |names| ==> |names[i]| <= EVENT_NAME_LENGTH_MAX)
      && PointersOk(|names|, blocks)
    }

    /** __register_event_name: the names afterwards and the slot, or their
        length if there is no room. */
    function Register(w: string): (seq<string>, nat)
    {
      var i, free := Index(names, w), Index(names, "");
      if i < |names| then (names, i)
      else if free < |names| then (names[free := Clip(w)], free)
      else if |names| < maxNames then (names + [Clip(w)], |names|)
      else (names, |names|)
    }

    /** __unregister_event_name */
    function Unregister(w: string): seq<string>
    {
      var i := Index(names, w);
      if i < |names| then names[i := ""] else names
    }

    function Off(w: string, listener: nat): (View, bool)
    {
      var i := Index(names, w);
      if i == |names| then (this, false) else
        var kept := Kept(blocks, NamePointer(i), listener);
        (View(maxNames, maxListeners,
              if Uses(kept, NamePointer(i)) == 0 then Unregister(names[i]) else names, kept), true)
    }

    function Emit(w: string): (View, bool, seq<Event>)
    {
      var i := Index(names, w);
      if i == |names| then (this, false, []) else
        (this.(blocks := Fired(blocks, NamePointer(i))), true, Calls(names[i], blocks, NamePointer(i)))
    }

    function On(w: string, listener: nat, data: int, once: bool): (View, bool)
    {
      if |w| > EVENT_NAME_LENGTH_MAX then (this, false) else
        var (names', i) := Register(w);
        if i == |names'| then (this, false) else
          var room := if |blocks| < maxListeners then blocks else Live(blocks);
          if |room| >= maxListeners then (View(maxNames, maxListeners, names', room), false) else
            var b := EventBlock(NamePointer(i), listener, data, once);
            (View(maxNames, maxListeners, names', room + [b]), true)
    }

    function Step(op: Op): (View, Out)
    {
      match op
      case On(w, listener, data, once) => var (v, ok) := On(w, listener, data, once); (v, Out(ok, []))
      case Off(w, listener) => var (v, ok) := Off(w, listener); (v, Out(ok, []))
      case Emit(w) => var (v, ok, calls) := Emit(w); (v, Out(ok, calls))
    }
  }

  /** Both rings fit 32 bits. */
  predicate RingsFit(maxNames: nat, maxListeners: nat)
  {
    Fits(maxNames, NAME_SIZE) && Fits(maxListeners, BLOCK_SIZE)
  }

  /** Slots of 16 and of 32 bytes. */
  lemma RingSizes(maxNames: nat, maxListeners: nat)
    ensures RingsFit(maxNames, maxListeners)
            <==> (maxNames == 0 || 20 + (maxNames + 1) * 16 < 4294967296)
                 && (maxListeners == 0 || 20 + (maxListeners + 1) * 32 < 4294967296)
  {
  }

  function Fresh(maxNames: nat, maxListeners: nat): View
  {
    View(maxNames, maxListeners, [], [])
  }

  // ----- every call keeps the view well formed -----

  lemma {:induction false} KeptSubset(bs: seq<EventBlock>, p: nat, listener: nat)
    ensures |Kept(bs, p, listener)| <= |bs|
    ensures forall b :: b in Kept(bs, p, listener) <==> b in bs && !Matches(b, p, listener)
  {
    if bs != [] {
      KeptSubset(bs[..|bs| - 1], p, listener);
    }
  }

  lemma {:induction false} LiveSubset(bs: seq<EventBlock>)
    ensures |Live(bs)| <= |bs|
    ensures forall b :: b in Live(bs) <==> b in bs && b.name != NULL
  {
    if bs != [] {
      LiveSubset(bs[..|bs| - 1]);
    }
  }

  ghost predicate Keeps(v: View, v': View)
  {
    v'.WellFormed() && v'.maxNames == v.maxNames && v'.maxListeners == v.maxListeners
  }

  lemma RegisterKeeps(v: View, w: string)
    requires v.WellFormed()
    ensures var (names', i) := v.Register(w);
            && Keeps(v, v.(names := names')) && |v.names| <= |names'| && i <= |names'|
  {
  }

  lemma OnKeeps(v: View, w: string, listener: nat, data: int, once: bool)
    requires v.WellFormed()
    ensures Keeps(v, v.On(w, listener, data, once).0)
  {
    var (names', i) := v.Register(w);
    RegisterKeeps(v, w);
    LiveSubset(v.blocks);
  }

  lemma OffKeeps(v: View, w: string, listener: nat)
    requires v.WellFormed()
    ensures Keeps(v, v.Off(w, listener).0)
  {
    var i := Index(v.names, w);
    if i < |v.names| {
      KeptSubset(v.blocks, NamePointer(i), listener);
      UnregisterKeeps(v, v.names[i]);
    }
  }

  lemma UnregisterKeeps(v: View, w: string)
    requires v.WellFormed()
    ensures |v.Unregister(w)| == |v.names| && Keeps(v, v.(names := v.Unregister(w)))
  {
  }

  lemma EmitKeeps(v: View, w: string)
    requires v.WellFormed()
    ensures Keeps(v, v.Emit(w).0)
  {
    var i := Index(v.names, w);
    if i < |v.names| {
      var bs := v.Emit(w).0.blocks;
      forall b | b in bs ensures b.name == NULL || PointsInto(b.name, |v.names|) {
        var j :| 0 <= j < |bs| && bs[j] == b;
        assert v.blocks[j] in v.blocks;
      }
    }
  }

  lemma StepKeepsWellFormed(v: View, op: Op)
    requires v.WellFormed()
    ensures Keeps(v, v.Step(op).0)
    ensures forall w :: w in v.Step(op).0.names ==> |w| <= 15
  {
    match op
    case On(w, listener, data, once) => OnKeeps(v, w, listener, data, once);
    case Off(w, listener) => OffKeeps(v, w, listener);
    case Emit(w) => EmitKeeps(v, w);
  }

  // ----- runs -----

  ghost function Run(v: View, ops: seq<Op>): (View, seq<Out>)
    requires v.WellFormed()
    decreases |ops|
  {
    if ops == [] then (v, []) else
      StepKeepsWellFormed(v, ops[0]);
      var (v1, out) := v.Step(ops[0]);
      var (v2, outs) := Run(v1, ops[1..]);
      (v2, [out] + outs)
  }
}
