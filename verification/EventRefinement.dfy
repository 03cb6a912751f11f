/** The rings of the emitter implement the plain list: slot reuse is safe, so
    that equality of name pointers is equality of names, and tombstones,
    rotation and compaction never show. */
module EventRefinement {
  import opened ControlBlock
  import opened EventModel
  import opened PlainEmitter

  // ----- the invariant -----

  /** Two slots never hold the same name. */
  ghost predicate DistinctNames(names: seq<string>)
  {
    forall i, j :: 0 <= i < j < |names| && names[i] == names[j] ==> names[i] == ""
  }

  /** Every live block points to a slot in use. */
  ghost predicate LiveNamed(names: seq<string>, bs: seq<EventBlock>)
  {
    forall b :: b in bs && b.name != NULL ==> PointsInto(b.name, |names|) && names[NameIndex(b.name)] != ""
  }

  ghost predicate Inv(v: View)
  {
    v.WellFormed() && DistinctNames(v.names) && LiveNamed(v.names, v.blocks)
  }

  // ----- the abstraction -----

  ghost function Registered(names: seq<string>): set<string>
  {
    set w | w in names && w != ""
  }

  ghost function Registrations(names: seq<string>, bs: seq<EventBlock>): seq<Event>
    requires PointersOk(|names|, bs)
  {
    if bs == [] then [] else
      var b := bs[|bs| - 1];
      var regs := Registrations(names, bs[..|bs| - 1]);
      if b.name == NULL then regs else regs + [Seen(names, b)]
  }

  ghost function Abs(v: View): Plain
    requires v.WellFormed()
  {
    Plain(v.maxNames, v.maxListeners, Registered(v.names), Registrations(v.names, v.blocks))
  }

  // ----- pointers and names -----

  /** Equality of name pointers is equality of names. */
  lemma PointerIsName(v: View, b: EventBlock, i: nat)
    requires Inv(v) && b in v.blocks && b.name != NULL && i < |v.names| && v.names[i] != ""
    ensures b.name == NamePointer(i) <==> v.names[NameIndex(b.name)] == v.names[i]
  {
    var j := NameIndex(b.name);
    if j < i {
      assert v.names[j] != v.names[i];
    } else if i < j {
      assert v.names[i] != v.names[j];
    }
  }

  lemma IndexIsRegistered(names: seq<string>, w: string)
    requires w != ""
    ensures Index(names, w) < |names| <==> w in Registered(names)
  {
  }

  lemma RegisteredOneMore(names: seq<string>, w: string)
    ensures Registered(names + [w]) == if w == "" then Registered(names) else Registered(names) + {w}
  {
    var more := names + [w];
    assert more[|names|] == w;
    assert forall x :: x in more <==> x in names || x == w;
  }

  lemma FreeSlotIsEmptyName(names: seq<string>)
    ensures Index(names, "") == |names| <==> "" !in names
  {
  }

  /** With distinct names, a slot is free or all names are counted. */
  lemma {:induction false} RegisteredSize(names: seq<string>)
    requires DistinctNames(names)
    ensures |Registered(names)| <= |names|
    ensures |Registered(names)| == |names| <==> Index(names, "") == |names|
  {
    FreeSlotIsEmptyName(names);
    if names != [] {
      var init, last := names[..|names| - 1], names[|names| - 1];
      RegisteredSize(init);
      FreeSlotIsEmptyName(init);
      assert names == init + [last];
      RegisteredOneMore(init, last);
      if last != "" {
        assert last !in init;
      }
    }
  }

  // ----- the listener ring -----

  /** Blocks that do not point to a changed slot are seen unchanged. */
  lemma {:induction false} RegistrationsFrame(names: seq<string>, names': seq<string>, bs: seq<EventBlock>)
    requires PointersOk(|names|, bs) && |names| <= |names'|
    requires forall b :: b in bs && b.name != NULL ==> names'[NameIndex(b.name)] == names[NameIndex(b.name)]
    ensures PointersOk(|names'|, bs) && Registrations(names', bs) == Registrations(names, bs)
  {
    if bs != [] {
      RegistrationsFrame(names, names', bs[..|bs| - 1]);
    }
  }

  lemma RegistrationsOneMore(names: seq<string>, bs: seq<EventBlock>, b: EventBlock)
    requires PointersOk(|names|, bs) && (b.name == NULL || PointsInto(b.name, |names|))
    ensures PointersOk(|names|, bs + [b])
    ensures Registrations(names, bs + [b])
            == if b.name == NULL then Registrations(names, bs) else Registrations(names, bs) + [Seen(names, b)]
  {
    assert (bs + [b])[..|bs|] == bs;
  }

  lemma BlocksOneMore(w: string, bs: seq<EventBlock>, b: EventBlock, p: nat, listener: nat)
    ensures Kept(bs + [b], p, listener)
            == if Matches(b, p, listener) then Kept(bs, p, listener) else Kept(bs, p, listener) + [b]
    ensures Live(bs + [b]) == if b.name == NULL then Live(bs) else Live(bs) + [b]
    ensures Uses(bs + [b], p) == Uses(bs, p) + if b.name == p then 1 else 0
    ensures Fired(bs + [b], p) == Fired(bs, p) + [AfterCall(b, p)]
    ensures Calls(w, bs + [b], p) == Calls(w, bs, p) + CallOf(w, b, p)
  {
    assert (bs + [b])[..|bs|] == bs;
  }

  lemma {:induction false} RegistrationsLive(names: seq<string>, bs: seq<EventBlock>)
    requires PointersOk(|names|, bs)
    ensures PointersOk(|names|, Live(bs)) && Registrations(names, Live(bs)) == Registrations(names, bs)
    ensures |Registrations(names, bs)| == |Live(bs)|
  {
    LiveSubset(bs);
    if bs != [] {
      var init, b := bs[..|bs| - 1], bs[|bs| - 1];
      RegistrationsLive(names, init);
      if b.name != NULL {
        RegistrationsOneMore(names, Live(init), b);
      }
    }
  }

  /** A pointer is in use iff its name is. */
  lemma {:induction false} UsesIsHasName(v: View, bs: seq<EventBlock>, i: nat)
    requires Inv(v) && i < |v.names| && v.names[i] != ""
    requires forall b :: b in bs ==> b in v.blocks
    ensures PointersOk(|v.names|, bs)
    ensures Uses(bs, NamePointer(i)) > 0 <==> HasName(Registrations(v.names, bs), v.names[i])
    ensures Uses(bs, NamePointer(i)) == 0 ==> forall b :: b in bs ==> b.name != NamePointer(i)
  {
    PointerRoundTrip(i, |v.names|);
    if bs != [] {
      var init, b := bs[..|bs| - 1], bs[|bs| - 1];
      UsesIsHasName(v, init, i);
      assert bs == init + [b] && b in bs;
      if b.name != NULL {
        PointerIsName(v, b, i);
        OneMore(Registrations(v.names, init), Seen(v.names, b), v.names[i], 0);
      }
    }
  }

  /** Rotating the matches of a pointer out is removing the matches of its
      name from the list. */
  lemma {:induction false} KeptIsWithout(v: View, bs: seq<EventBlock>, i: nat, listener: nat)
    requires Inv(v) && i < |v.names| && v.names[i] != ""
    requires forall b :: b in bs ==> b in v.blocks
    ensures var kept := Kept(bs, NamePointer(i), listener);
            && PointersOk(|v.names|, bs) && PointersOk(|v.names|, kept)
            && Registrations(v.names, kept) == Without(Registrations(v.names, bs), v.names[i], listener)
  {
    KeptSubset(bs, NamePointer(i), listener);
    if bs != [] {
      var init, b := bs[..|bs| - 1], bs[|bs| - 1];
      KeptIsWithout(v, init, i, listener);
      assert bs == init + [b] && b in bs;
      BlocksOneMore(v.names[i], init, b, NamePointer(i), listener);
      RegistrationsOneMore(v.names, init, b);
      RegistrationsOneMore(v.names, Kept(init, NamePointer(i), listener), b);
      if b.name != NULL {
        PointerIsName(v, b, i);
        OneMore(Registrations(v.names, init), Seen(v.names, b), v.names[i], listener);
      }
    }
  }

  lemma {:induction false} FiredDropsOnce(v: View, bs: seq<EventBlock>, i: nat)
    requires Inv(v) && i < |v.names| && v.names[i] != ""
    requires forall b :: b in bs ==> b in v.blocks
    ensures var fired := Fired(bs, NamePointer(i));
            && PointersOk(|v.names|, bs) && PointersOk(|v.names|, fired)
            && Registrations(v.names, fired) == AfterEmit(Registrations(v.names, bs), v.names[i])
  {
    var p := NamePointer(i);
    PointerRoundTrip(i, |v.names|);
    if bs != [] {
      var init, b := bs[..|bs| - 1], bs[|bs| - 1];
      FiredDropsOnce(v, init, i);
      assert bs == init + [b] && b in bs;
      BlocksOneMore(v.names[i], init, b, p, 0);
      RegistrationsOneMore(v.names, Fired(init, p), AfterCall(b, p));
      RegistrationsOneMore(v.names, init, b);
      if b.name != NULL {
        PointerIsName(v, b, i);
        OneMore(Registrations(v.names, init), Seen(v.names, b), v.names[i], 0);
      }
    }
  }

  /** A block is called through the pointer iff it is called by its name. */
  lemma CallOfByName(v: View, b: EventBlock, i: nat)
    requires Inv(v) && i < |v.names| && v.names[i] != "" && b in v.blocks
    ensures b.name == NULL || PointsInto(b.name, |v.names|)
    ensures CallOf(v.names[i], b, NamePointer(i))
            == if b.name != NULL && v.names[NameIndex(b.name)] == v.names[i] && b.listener != 0 then [Seen(v.names, b)]
               else []
  {
    PointerRoundTrip(i, |v.names|);
    if b.name != NULL {
      PointerIsName(v, b, i);
    }
  }

  lemma {:induction false} CallsByName(v: View, bs: seq<EventBlock>, i: nat)
    requires Inv(v) && i < |v.names| && v.names[i] != ""
    requires forall b :: b in bs ==> b in v.blocks
    ensures PointersOk(|v.names|, bs)
    ensures Calls(v.names[i], bs, NamePointer(i)) == Called(Registrations(v.names, bs), v.names[i])
  {
    if bs != [] {
      var init, b := bs[..|bs| - 1], bs[|bs| - 1];
      CallsByName(v, init, i);
      assert bs == init + [b] && b in bs;
      BlocksOneMore(v.names[i], init, b, NamePointer(i), 0);
      RegistrationsOneMore(v.names, init, b);
      CallOfByName(v, b, i);
      if b.name != NULL {
        OneMore(Registrations(v.names, init), Seen(v.names, b), v.names[i], 0);
      }
    }
  }

  /** Calling and tombstoning through the pointer is calling and dropping by
      name. */
  lemma FiredIsAfterEmit(v: View, bs: seq<EventBlock>, i: nat)
    requires Inv(v) && i < |v.names| && v.names[i] != ""
    requires forall b :: b in bs ==> b in v.blocks
    ensures var fired := Fired(bs, NamePointer(i));
            && PointersOk(|v.names|, bs) && PointersOk(|v.names|, fired)
            && Registrations(v.names, fired) == AfterEmit(Registrations(v.names, bs), v.names[i])
            && Calls(v.names[i], bs, NamePointer(i)) == Called(Registrations(v.names, bs), v.names[i])
  {
    FiredDropsOnce(v, bs, i);
    CallsByName(v, bs, i);
  }

  // ----- off, emit, on -----

  lemma BlankedNames(names: seq<string>, i: nat)
    requires i < |names| && DistinctNames(names) && names[i] != ""
    ensures DistinctNames(names[i := ""])
    ensures Registered(names[i := ""]) == Registered(names) - {names[i]}
  {
    var names' := names[i := ""];
    forall w | w in Registered(names) && w != names[i] ensures w in names' {
      var k :| 0 <= k < |names| && names[k] == w;
      assert names'[k] == w;
    }
    forall w | w in Registered(names') ensures w in names && w != names[i] {
      var k :| 0 <= k < |names'| && names'[k] == w;
      assert names[k] == w && k != i;
      assert names[if k < i then k else i] != names[if k < i then i else k];
    }
  }

  lemma IndexOfOccurrence(names: seq<string>, i: nat)
    requires i < |names| && DistinctNames(names) && names[i] != ""
    ensures Index(names, names[i]) == i
  {
    var k := Index(names, names[i]);
    assert names[k] == names[i];
  }

  lemma OffRefines(v: View, w: string, listener: nat)
    requires Inv(v) && w != ""
    ensures var (v', ok) := v.Off(w, listener);
            Inv(v') && (Abs(v'), Out(ok, [])) == Abs(v).Step(Off(w, listener))
  {
    var i := Index(v.names, w);
    IndexIsRegistered(v.names, w);
    OffKeeps(v, w, listener);
    if i < |v.names| {
      var p := NamePointer(i);
      var kept := Kept(v.blocks, p, listener);
      KeptSubset(v.blocks, p, listener);
      KeptIsWithout(v, v.blocks, i, listener);
      UsesIsHasName(v, kept, i);
      if Uses(kept, p) == 0 {
        IndexOfOccurrence(v.names, i);
        BlankedNames(v.names, i);
        forall b | b in kept && b.name != NULL ensures NameIndex(b.name) != i {
          assert b.name == NamePointer(NameIndex(b.name));
        }
        RegistrationsFrame(v.names, v.names[i := ""], kept);
      }
    }
  }

  lemma EmitRefines(v: View, w: string)
    requires Inv(v) && w != ""
    ensures var (v', ok, calls) := v.Emit(w);
            Inv(v') && (Abs(v'), Out(ok, calls)) == Abs(v).Step(Emit(w))
  {
    var i := Index(v.names, w);
    IndexIsRegistered(v.names, w);
    EmitKeeps(v, w);
    if i < |v.names| {
      FiredIsAfterEmit(v, v.blocks, i);
      var fired := Fired(v.blocks, NamePointer(i));
      forall b | b in fired && b.name != NULL
        ensures PointsInto(b.name, |v.names|) && v.names[NameIndex(b.name)] != ""
      {
        var k :| 0 <= k < |fired| && fired[k] == b;
        assert v.blocks[k] in v.blocks;
      }
    }
  }

  /** Registering a name finds its slot, fills a free one, or adds one; it
      fails exactly if the name is new and as many names as slots are
      registered.  Live pointers see the same names as before. */
  lemma RegisterRefines(v: View, w: string)
    requires Inv(v) && w != "" && |w| <= EVENT_NAME_LENGTH_MAX
    ensures var (names', i) := v.Register(w);
            && (i == |names'| <==> w !in Registered(v.names) && |Registered(v.names)| >= v.maxNames)
            && (i == |names'| ==> names' == v.names)
            && (i < |names'| ==> names'[i] == w && Registered(names') == Registered(v.names) + {w})
            && Inv(v.(names := names'))
            && Registrations(names', v.blocks) == Registrations(v.names, v.blocks)
  {
    var (names', i) := v.Register(w);
    IndexIsRegistered(v.names, w);
    RegisteredSize(v.names);
    RegisterKeeps(v, w);
    if Index(v.names, w) == |v.names| && i < |names'| {
      NewName(v.names, names', w, i);
      NewNameUnseen(v, names', w, i);
    }
  }

  /** Live blocks do not point to the slot that a new name takes. */
  lemma NewNameUnseen(v: View, names': seq<string>, w: string, i: nat)
    requires Inv(v) && w != ""
    requires if i < |v.names| then v.names[i] == "" && names' == v.names[i := w]
             else i == |v.names| && names' == v.names + [w]
    ensures PointersOk(|names'|, v.blocks) && LiveNamed(names', v.blocks)
    ensures Registrations(names', v.blocks) == Registrations(v.names, v.blocks)
  {
    forall b | b in v.blocks && b.name != NULL ensures names'[NameIndex(b.name)] == v.names[NameIndex(b.name)] {
      assert v.names[NameIndex(b.name)] != "";
    }
    RegistrationsFrame(v.names, names', v.blocks);
  }

  lemma NewName(names: seq<string>, names': seq<string>, w: string, i: nat)
    requires w != "" && w !in names && DistinctNames(names)
    requires if i < |names| then names[i] == "" && names' == names[i := w] else i == |names| && names' == names + [w]
    ensures DistinctNames(names') && Registered(names') == Registered(names) + {w}
  {
    assert names'[i] == w;
    forall x | x in Registered(names) ensures x in names' {
      var k :| 0 <= k < |names| && names[k] == x;
      assert names'[k] == x;
    }
  }

  /** Making room drops no live listener, so there is room exactly if there
      are fewer registrations than slots. */
  lemma RoomRefines(v: View)
    requires Inv(v)
    ensures var room := if |v.blocks| < v.maxListeners then v.blocks else Live(v.blocks);
            && Inv(v.(blocks := room))
            && Registrations(v.names, room) == Registrations(v.names, v.blocks)
            && (|room| < v.maxListeners <==> |Registrations(v.names, v.blocks)| < v.maxListeners)
  {
    LiveSubset(v.blocks);
    RegistrationsLive(v.names, v.blocks);
  }

  lemma AppendRefines(v: View, i: nat, listener: nat, data: int, once: bool)
    requires Inv(v) && i < |v.names| && v.names[i] != "" && |v.blocks| < v.maxListeners
    ensures var v' := v.(blocks := v.blocks + [EventBlock(NamePointer(i), listener, data, once)]);
            && Inv(v')
            && Abs(v') == Abs(v).(regs := Abs(v).regs + [Event(v.names[i], listener, data, once)])
  {
    PointerRoundTrip(i, |v.names|);
    RegistrationsOneMore(v.names, v.blocks, EventBlock(NamePointer(i), listener, data, once));
  }

  lemma OnRefines(v: View, w: string, listener: nat, data: int, once: bool)
    requires Inv(v) && w != ""
    ensures var (v', ok) := v.On(w, listener, data, once);
            Inv(v') && (Abs(v'), Out(ok, [])) == Abs(v).Step(On(w, listener, data, once))
  {
    if |w| <= EVENT_NAME_LENGTH_MAX {
      RegisterRefines(v, w);
      var (names', i) := v.Register(w);
      if i < |names'| {
        var named := v.(names := names');
        RoomRefines(named);
        var room := if |v.blocks| < v.maxListeners then v.blocks else Live(v.blocks);
        if |room| < v.maxListeners {
          AppendRefines(named.(blocks := room), i, listener, data, once);
        }
      }
    }
  }

  // ----- whole runs -----

  ghost predicate Named(op: Op) { op.name != "" }

  lemma StepRefines(v: View, op: Op)
    requires Inv(v) && Named(op)
    ensures var (v', out) := v.Step(op);
            Inv(v') && (Abs(v'), out) == Abs(v).Step(op)
  {
    match op
    case On(w, listener, data, once) => OnRefines(v, w, listener, data, once);
    case Off(w, listener) => OffRefines(v, w, listener);
    case Emit(w) => EmitRefines(v, w);
  }

  /** The empty name is the one a freed slot shows.  A call with it agrees with
      the plain list exactly while no slot is free, and no new slot either if
      the call is a registration. */
  lemma StepRefinesExact(v: View, op: Op)
    requires Inv(v)
    ensures var (v', out) := v.Step(op);
            v'.WellFormed() &&
            (Inv(v') && (Abs(v'), out) == Abs(v).Step(op)
             <==> Named(op) || (Index(v.names, "") == |v.names| && (op.On? ==> |v.names| == v.maxNames)))
  {
    StepKeepsWellFormed(v, op);
    RegisteredSize(v.names);
    if Named(op) {
      StepRefines(v, op);
    } else {
      assert "" !in Registered(v.Step(op).0.names);
    }
  }

  /** Over every run with non-empty names, return values and listener calls are
      those of the plain list, and the rings stay a picture of it. */
  lemma {:induction false} RunRefines(v: View, ops: seq<Op>)
    requires Inv(v) && forall op :: op in ops ==> Named(op)
    ensures var (v', outs) := Run(v, ops);
            Inv(v') && (Abs(v'), outs) == Abs(v).Run(ops)
    decreases |ops|
  {
    if ops != [] {
      StepRefines(v, ops[0]);
      RunRefines(v.Step(ops[0]).0, ops[1..]);
    }
  }

  lemma FreshRefines(maxNames: nat, maxListeners: nat)
    ensures Inv(Fresh(maxNames, maxListeners))
    ensures Abs(Fresh(maxNames, maxListeners)) == FreshPlain(maxNames, maxListeners)
  {
  }

  // ----- a run with the empty name -----

  lemma OneOn(maxNames: nat, maxListeners: nat, w: string, listener: nat)
    requires maxNames > 0 && maxListeners > 0 && w != "" && |w| <= EVENT_NAME_LENGTH_MAX
    ensures Fresh(maxNames, maxListeners).On(w, listener, 0, false)
            == (View(maxNames, maxListeners, [w], [EventBlock(NamePointer(0), listener, 0, false)]), true)
  {
    var v := Fresh(maxNames, maxListeners);
    assert v.Register(w) == ([] + [w], 0);
    var b := EventBlock(NamePointer(0), listener, 0, false);
    assert [] + [w] == [w] && [] + [b] == [b];
  }

  lemma OneOff(maxNames: nat, maxListeners: nat, w: string, listener: nat)
    requires maxNames > 0 && maxListeners > 0 && w != ""
    ensures View(maxNames, maxListeners, [w], [EventBlock(NamePointer(0), listener, 0, false)]).Off(w, listener)
            == (View(maxNames, maxListeners, [""], []), true)
  {
    var bs := [EventBlock(NamePointer(0), listener, 0, false)];
    assert bs[..0] == [] && Kept(bs, NamePointer(0), listener) == [];
    assert [w][0 := ""] == [""];
  }

  /** Both runs answer a call with a name alike, and go on. */
  lemma BothAnswer(v: View, op: Op, rest: seq<Op>)
    requires Inv(v) && Named(op)
    ensures var (v', out) := v.Step(op);
            && Inv(v') && Run(v, [op] + rest).1 == [out] + Run(v', rest).1
            && Abs(v).Run([op] + rest).1 == [out] + Abs(v').Run(rest).1
  {
    StepRefines(v, op);
    assert ([op] + rest)[1..] == rest;
  }

  lemma FreedSlotShows(v: View)
    requires Inv(v) && v.names == [""] && v.blocks == []
    ensures Run(v, [Emit("")]).1 == [Out(true, [])] && Abs(v).Run([Emit("")]).1 == [Out(false, [])]
  {
    assert Index(v.names, "") == 0;
    var ops := [Emit("")];
    assert ops[1..] == [];
  }

  /** After a registration and its off, an emit of the empty name finds the
      freed slot and succeeds, where the plain list knows no such name. */
  lemma EmptyNameShows(maxNames: nat, maxListeners: nat, w: string, listener: nat)
    requires maxNames > 0 && maxListeners > 0 && w != "" && |w| <= EVENT_NAME_LENGTH_MAX
    ensures var ops := [On(w, listener, 0, false), Off(w, listener), Emit("")];
            && Run(Fresh(maxNames, maxListeners), ops).1 == [Out(true, []), Out(true, []), Out(true, [])]
            && FreshPlain(maxNames, maxListeners).Run(ops).1 == [Out(true, []), Out(true, []), Out(false, [])]
  {
    var on, off, last := On(w, listener, 0, false), Off(w, listener), [Emit("")];
    var v1 := View(maxNames, maxListeners, [w], [EventBlock(NamePointer(0), listener, 0, false)]);
    OneOn(maxNames, maxListeners, w, listener);
    FreshRefines(maxNames, maxListeners);
    BothAnswer(Fresh(maxNames, maxListeners), on, [off] + last);
    OneOff(maxNames, maxListeners, w, listener);
    BothAnswer(v1, off, last);
    FreedSlotShows(View(maxNames, maxListeners, [""], []));
    assert [on] + ([off] + last) == [on, off, Emit("")];
  }

  // ----- what every reachable state promises -----

  /** Slot reuse is safe in every reachable state: slots in use hold distinct
      names, every live block points to one of them, pointer equality is name
      equality, and through the pointers the ring reads as the registrations
      made, with the names they were made under. */
  lemma NamesSafe(maxNames: nat, maxListeners: nat, ops: seq<Op>)
    requires forall op :: op in ops ==> Named(op)
    ensures var v, p := Run(Fresh(maxNames, maxListeners), ops).0, FreshPlain(maxNames, maxListeners).Run(ops).0;
            && v.WellFormed() && DistinctNames(v.names) && LiveNamed(v.names, v.blocks)
            && (forall w :: w in v.names ==> |w| <= 15)
            && (forall b, c :: b in v.blocks && c in v.blocks && b.name != NULL && c.name != NULL ==>
                 (b.name == c.name <==> v.names[NameIndex(b.name)] == v.names[NameIndex(c.name)]))
            && Registered(v.names) == p.registered && Registrations(v.names, v.blocks) == p.regs
  {
    FreshRefines(maxNames, maxListeners);
    RunRefines(Fresh(maxNames, maxListeners), ops);
    var v := Run(Fresh(maxNames, maxListeners), ops).0;
    forall b, c | b in v.blocks && c in v.blocks && b.name != NULL && c.name != NULL
      ensures b.name == c.name <==> v.names[NameIndex(b.name)] == v.names[NameIndex(c.name)]
    {
      PointerIsName(v, b, NameIndex(c.name));
      assert c.name == NamePointer(NameIndex(c.name));
    }
  }

  /** Tombstones never cost capacity: in every reachable state a registration
      fails only for a name that is too long, for a new name when as many names
      as slots are registered, or when as many listeners as slots are live. */
  lemma OnSucceedsExactly(maxNames: nat, maxListeners: nat, ops: seq<Op>,
                          w: string, listener: nat, data: int, once: bool)
    requires w != "" && forall op :: op in ops ==> Named(op)
    ensures var v := Run(Fresh(maxNames, maxListeners), ops).0;
            v.On(w, listener, data, once).1
            <==> (|w| <= 15
                  && (w in Registered(v.names) || |Registered(v.names)| < maxNames)
                  && |Live(v.blocks)| < maxListeners)
  {
    FreshRefines(maxNames, maxListeners);
    RunRefines(Fresh(maxNames, maxListeners), ops);
    var v := Run(Fresh(maxNames, maxListeners), ops).0;
    RunBounds(FreshPlain(maxNames, maxListeners), ops);
    OnRefines(v, w, listener, data, once);
    RegistrationsLive(v.names, v.blocks);
  }

  /** A new emitter with room accepts the names of up to 15 characters, those
      that a slot of 16 bytes holds with a terminator. */
  lemma FirstName(maxNames: nat, maxListeners: nat, w: string, listener: nat, data: int, once: bool)
    requires w != ""
    ensures Fresh(maxNames, maxListeners).On(w, listener, data, once).1
            <==> |w| <= 15 && maxNames > 0 && maxListeners > 0
    ensures NAME_SIZE == 15 + 1
  {
    OnSucceedsExactly(maxNames, maxListeners, [], w, listener, data, once);
  }

  lemma {:induction false} RunBounds(p: Plain, ops: seq<Op>)
    ensures p.Run(ops).0.maxNames == p.maxNames && p.Run(ops).0.maxListeners == p.maxListeners
    decreases |ops|
  {
    if ops != [] {
      RunBounds(p.Step(ops[0]).0, ops[1..]);
    }
  }
}
