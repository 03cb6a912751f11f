/** The list: a sentinel node whose ring holds the items.  The C++ class
    inherits from Linkable; here the sentinel is the object `self`. */
module Lists {
  import opened Linkables

  class List {
    const self: Linkable
    ghost var items: seq<Linkable>

    ghost predicate Valid()
      reads this, self, items
    {
      Ring([self] + items)
    }

    constructor ()
      ensures Valid() && items == [] && fresh(self)
    {
      self := new Linkable();
      items := [];
    }

    predicate IsEmpty()
      reads this, self
    {
      self.IsAlone()
    }

    function First(): Linkable?
      reads this, self
    {
      if IsEmpty() then null else self.next
    }

    function Last(): Linkable?
      reads this, self
    {
      if IsEmpty() then null else self.prev
    }

    function NextOf(node: Linkable?): Linkable?
      reads this, self, node
    {
      var item := if node != null then node.next else First();
      if item == self then null else item
    }

    function PrevOf(node: Linkable?): Linkable?
      reads this, self, node
    {
      var item := if node != null then node.prev else Last();
      if item == self then null else item
    }

    /** next_of and prev_of step through the items in order and in reverse,
        from and to null. */
    lemma Steps(k: nat)
      requires Valid() && k < |items|
      ensures First() == NextOf(null) == items[0] && Last() == PrevOf(null) == items[|items| - 1]
      ensures NextOf(items[k]) == if k + 1 < |items| then items[k + 1] else null
      ensures PrevOf(items[k]) == if k > 0 then items[k - 1] else null
      ensures items[k].next == if k + 1 < |items| then items[k + 1] else self
    {
      var s := [self] + items;
      assert s[k + 1] == items[k] && s[0] == self && s[1] == items[0] && s[|items|] == items[|items| - 1];
      assert s[k + 1].next == s[After(k + 1, |s|)] && s[k + 1].prev == s[Before(k + 1, |s|)];
      assert s[0].next == s[After(0, |s|)] && s[0].prev == s[Before(0, |s|)];
    }

    lemma EmptySteps()
      requires Valid()
      ensures items == [] <==> IsEmpty()
      ensures items == [] ==> First() == Last() == NextOf(null) == PrevOf(null) == null
    {
      var s := [self] + items;
      assert s[0] == self;
      assert s[0].next == s[After(0, |s|)];
    }

    /** Appends a node that may be in this list, head another ring, or be in no
        ring.  The list with the node behind its other items is a ring, unless
        the node was in none and its links do not fit; a third ring stays one,
        unless the node was in none and does not spare it. */
    method Append(node: Linkable, ghost theirs: seq<Linkable>, ghost third: seq<Linkable> := [])
      requires Valid() && node != self && CanMove(node, [self] + items, theirs)
      requires Elsewhere(node, [self] + items, theirs, third)
      modifies this, self, items, theirs, node, node.prev, node.next
      ensures items == Without(old(items), node) + [node]
      ensures theirs != [] || node in old(items) ==> Valid()
      ensures theirs == [] && node !in old(items) ==> (Valid() <==> old(StaleFits(node, [self] + items)))
      ensures node !in old(items) && |theirs| > 1 ==> Ring(theirs[1..])
      ensures third != [] ==> (Ring(third) <==> node in old(items) || theirs != [] || old(Spares(node, third)))
    {
      ghost var mine, after := [self] + items, Without(items, node) + [node];
      DropAnchor(self, items, node);
      assert [self] + after == Without(mine, node) + [node];
      self.Append(node, mine, theirs, third);
      items := after;
    }

    /** Takes an item out.  Its own links stay as they were. */
    method Remove(node: Linkable)
      requires Valid() && node in items
      modifies this, self, items
      ensures Valid() && items == Without(old(items), node)
      ensures node.NeighboursMeet() && node.prev == old(node.prev) && node.next == old(node.next)
    {
      ghost var mine, rest := [self] + items, Without(items, node);
      Anchored(self, items);
      DropAnchor(self, items, node);
      InRing(mine, Position(mine, node));
      node.Detach();
      LeftRing(mine, node);
      items := rest;
    }

    method Length() returns (count: nat)
      requires Valid()
      ensures count == |items|
    {
      count := 0;
      EmptySteps();
      if items != [] {
        Steps(0);
      }
      var node := self.next;
      while node != self
        invariant count <= |items| && node == if count < |items| then items[count] else self
        decreases |items| - count
      {
        Steps(count);
        Anchored(self, items);
        node := node.next;
        count := count + 1;
        assert count < |items| ==> node == items[count];
      }
      Anchored(self, items);
    }
  }

  // ----- the loops of a client -----

  /** Walking by next_of from null visits the items in order. */
  method Forward(list: List) returns (visited: seq<Linkable>)
    requires list.Valid()
    ensures visited == list.items
  {
    visited := [];
    list.EmptySteps();
    if list.items != [] {
      list.Steps(0);
    }
    var item := list.NextOf(null);
    while item != null
      invariant |visited| <= |list.items| && visited == list.items[..|visited|]
      invariant item == if |visited| < |list.items| then list.items[|visited|] else null
      decreases |list.items| - |visited|
    {
      list.Steps(|visited|);
      visited := visited + [item];
      item := list.NextOf(item);
    }
  }

  /** Walking by prev_of from null visits them in exactly the reverse order. */
  method Backward(list: List) returns (visited: seq<Linkable>)
    requires list.Valid()
    ensures |visited| == |list.items|
    ensures forall k :: 0 <= k < |visited| ==> visited[k] == list.items[|visited| - 1 - k]
  {
    visited := [];
    list.EmptySteps();
    if list.items != [] {
      list.Steps(0);
    }
    var item := list.PrevOf(null);
    ghost var n := |list.items|;
    while item != null
      invariant |visited| <= n
      invariant forall k :: 0 <= k < |visited| ==> visited[k] == list.items[n - 1 - k]
      invariant item == if |visited| < n then list.items[n - 1 - |visited|] else null
      decreases n - |visited|
    {
      list.Steps(n - 1 - |visited|);
      visited := visited + [item];
      item := list.PrevOf(item);
    }
  }

  /** Deleting the first item until there is none empties the list in as many
      steps as it has items. */
  method DeleteAll(list: List) returns (deleted: nat)
    requires list.Valid()
    modifies list, list.self, list.items
    ensures list.Valid() && list.items == [] && deleted == |old(list.items)|
  {
    deleted := 0;
    ghost var all := list.items;
    list.EmptySteps();
    if list.items != [] {
      list.Steps(0);
    }
    var item := list.First();
    while item != null
      invariant list.Valid() && deleted <= |all| && list.items == all[deleted..]
      invariant item == if list.items != [] then list.items[0] else null
      decreases |list.items|
    {
      assert forall x :: x in list.items ==> x in all;
      RemoveFirst(list, item);
      deleted := deleted + 1;
      list.EmptySteps();
      if list.items != [] {
        list.Steps(0);
      }
      item := list.First();
    }
  }

  /** The destructor of the first item. */
  method RemoveFirst(list: List, item: Linkable)
    requires list.Valid() && list.items != [] && item == list.items[0]
    modifies list, list.self, list.items
    ensures list.Valid() && list.items == old(list.items[1..])
  {
    ghost var mine := [list.self] + list.items;
    Anchored(list.self, list.items);
    DropAnchor(list.self, list.items, item);
    assert mine[1] == item && item.prev == mine[0] && mine[1].next == mine[After(1, |mine|)];
    item.Destroy(mine);
    assert Position(list.items, item) == 0;
    list.items := list.items[1..];
  }

  /** remove and then delete: the destructor's second detach finds the
      neighbours still linked and changes nothing. */
  method RemoveAndDelete(list: List, node: Linkable)
    requires list.Valid() && node in list.items
    modifies list, list.self, list.items
    ensures list.Valid() && list.items == Without(old(list.items), node)
  {
    ghost var mine := [list.self] + list.items;
    Anchored(list.self, list.items);
    WithoutIsRest(mine, node);
    DropAnchor(list.self, list.items, node);
    assert node.prev in mine && node.next in mine by {
      var k := Position(mine, node);
      assert mine[k].prev == mine[Before(k, |mine|)] && mine[k].next == mine[After(k, |mine|)];
    }
    NotOwnNeighbour(mine, node);
    list.Remove(node);
    node.Destroy([list.self] + list.items);
  }

  lemma NotOwnNeighbour(s: seq<Linkable>, x: Linkable)
    requires Ring(s) && x in s && |s| > 1
    ensures x.prev != x && x.next != x
  {
    var k := Position(s, x);
    assert s[k].prev == s[Before(k, |s|)] && s[k].next == s[After(k, |s|)];
  }

  /** Appending a node that is in neither list, such as one that has been
      removed from the other: the one list is a list with the node at its end
      exactly if the links of the node fit, the other one stays a list exactly
      if the node spares it. */
  method AppendStale(here: List, there: List, node: Linkable)
    requires here.Valid() && there.Valid() && here != there
    requires Apart([here.self] + here.items, [there.self] + there.items)
    requires node !in [here.self] + here.items && node !in [there.self] + there.items
    modifies here, here.self, here.items, node, node.prev, node.next
    ensures here.items == old(here.items) + [node] && there.items == old(there.items)
    ensures here.Valid() <==> old(StaleFits(node, [here.self] + here.items))
    ensures there.Valid() <==> old(Spares(node, [there.self] + there.items))
  {
    assert here.self == ([here.self] + here.items)[0];
    assert forall x :: x in here.items ==> x in [here.self] + here.items;
    here.Append(node, [], [there.self] + there.items);
  }

  /** Appending an item of one list to another moves it: it becomes the last
      item here and is taken out there, and both stay lists. */
  method MoveItem(here: List, there: List, node: Linkable)
    requires here.Valid() && there.Valid() && here != there
    requires Apart([here.self] + here.items, [there.self] + there.items) && node in there.items
    modifies here, here.self, here.items, there, there.self, there.items
    ensures here.Valid() && here.items == old(here.items) + [node]
    ensures there.Valid() && there.items == Without(old(there.items), node)
  {
    ghost var k, rest := Position(there.items, node) + 1, Without(there.items, node);
    ghost var theirs := FromItem(there, k);
    assert here.self == ([here.self] + here.items)[0];
    MoveFrom(here, node, theirs);
    RingOfRest(there.self, rest, theirs[1..], k - 1);
    there.items := rest;
  }

  /** The ring of a list, read from its item k - 1. */
  lemma FromItem(list: List, k: nat) returns (theirs: seq<Linkable>)
    requires list.Valid() && 1 <= k <= |list.items|
    ensures Ring(theirs) && theirs[0] == list.items[k - 1] && |theirs| > 1
    ensures forall x :: x in theirs <==> x in [list.self] + list.items
    ensures forall i :: 0 <= i < |theirs| ==> theirs[i] == list.self || theirs[i] in list.items
    ensures theirs[1..] == list.items[k..] + [list.self] + list.items[..k - 1]
    ensures Without(list.items, list.items[k - 1]) == list.items[..k - 1] + list.items[k..]
  {
    var all := [list.self] + list.items;
    theirs := all[k..] + all[..k];
    Turned(all, k);
    TurnedBack(list.self, list.items, k);
    forall i | 0 <= i < |theirs| ensures theirs[i] == list.self || theirs[i] in list.items {
      assert theirs[i] in all;
    }
  }

  method MoveFrom(here: List, node: Linkable, ghost theirs: seq<Linkable>)
    requires here.Valid() && Ring(theirs) && theirs[0] == node && |theirs| > 1
    requires Apart([here.self] + here.items, theirs)
    modifies here, here.self, here.items, theirs
    ensures here.Valid() && here.items == old(here.items) + [node] && Ring(theirs[1..])
  {
    assert node in theirs && here.self == ([here.self] + here.items)[0];
    assert forall x :: x in here.items ==> x in [here.self] + here.items;
    RingAt(theirs, 0);
    here.Append(node, theirs);
  }

  /** A node that goes from one new list to another. */
  method NewLists() returns (here: List, there: List, node: Linkable)
    ensures here.Valid() && here.items == [node] && there.Valid() && there.items == []
  {
    here := new List();
    there := new List();
    node := new Linkable();
    there.Append(node, []);
    MoveItem(here, there, node);
  }

  /** A list's ring without one item, read from where the item was. */
  lemma RingOfRest(self: Linkable, items: seq<Linkable>, left: seq<Linkable>, k: nat)
    requires k <= |items| && left == items[k..] + [self] + items[..k] && Ring(left)
    ensures Ring([self] + items)
  {
    var m := |items| - k;
    TurnedLeft(self, items, left, k);
    Turned(left, m);
    assert left[m..] + left[..m] == [self] + items;
  }

  lemma TurnedLeft(self: Linkable, items: seq<Linkable>, left: seq<Linkable>, k: nat)
    requires k <= |items| && left == items[k..] + [self] + items[..k]
    ensures left != [] && |left| == |items| + 1 && left[|items| - k..] + left[..|items| - k] == [self] + items
  {
    assert left[|items| - k..] == [self] + items[..k] && left[..|items| - k] == items[k..];
  }

  /** The ring of a list, read from its item k - 1. */
  lemma TurnedBack(self: Linkable, items: seq<Linkable>, k: nat)
    requires 1 <= k <= |items| && Distinct([self] + items)
    ensures var theirs := ([self] + items)[k..] + ([self] + items)[..k];
            && theirs[0] == items[k - 1]
            && (forall x :: x in theirs <==> x in [self] + items)
            && theirs[1..] == items[k..] + [self] + items[..k - 1]
            && Without(items, items[k - 1]) == items[..k - 1] + items[k..]
  {
    Anchored(self, items);
    CutOut(items, k - 1);
    var s := [self] + items;
    assert s == s[..k] + s[k..];
    assert s[k..] == items[k - 1..] && s[..k] == [self] + items[..k - 1];
  }

  // ----- prepend -----

  /** Linkable::prepend moves the receiver, `self`, in front of its argument.
      What its name says is to put the argument, out of its old place, right
      behind the receiver in the receiver's ring.  Both are the same exactly if
      both nodes are alone or they are neighbours already. */
  method Prepend(self: Linkable, node: Linkable, ghost others: seq<Linkable>, ghost theirs: seq<Linkable>)
    requires Ring([self] + others) && node != self
    requires node in others || (Ring([node] + theirs) && Apart([self] + others, [node] + theirs))
    modifies self, others, node, theirs
    ensures node in others ==>
      var k := Position(others, node); Ring([node] + others[k + 1..] + others[..k] + [self])
    ensures node !in others ==> Ring([node] + theirs + [self]) && (others != [] ==> Ring(others))
    ensures Ring([self, node] + Without(others, node))
            <==> if node in others then old(self.next == node || self.prev == node) else others == theirs == []
  {
    if node in others {
      WithoutAt(others, Position(others, node));
    }
    PrependAt(self, node, others, theirs, if node in others then Position(others, node) else |others|);
  }

  /** The same, with the argument's place k among the others, if it is there. */
  method PrependAt(self: Linkable, node: Linkable,
                   ghost others: seq<Linkable>, ghost theirs: seq<Linkable>, ghost k: nat)
    requires Ring([self] + others) && node != self
    requires if k < |others| then others[k] == node
             else Ring([node] + theirs) && Apart([self] + others, [node] + theirs)
    modifies self, others, node, theirs
    ensures k < |others| ==>
      && Ring([node] + others[k + 1..] + others[..k] + [self])
      && (Ring([self, node] + (others[..k] + others[k + 1..])) <==> old(self.next == node || self.prev == node))
    ensures k >= |others| ==>
      && Ring([node] + theirs + [self]) && (others != [] ==> Ring(others))
      && (Ring([self, node] + others) <==> others == theirs == [])
  {
    ghost var ring, from := Arranged(self, node, others, theirs, k);
    node.Append(self, ring, from);
    if k < |others| {
      SelfThenNode(self, node, others[..k], others[k + 1..]);
    } else {
      SelfThenOther(self, node, others, theirs);
    }
  }

  lemma WithoutAt(s: seq<Linkable>, k: nat)
    requires k < |s| && Position(s, s[k]) == k
    ensures Without(s, s[k]) == s[..k] + s[k + 1..]
  {
  }

  /** The argument's ring, read from the argument, and the receiver's if it is
      another one. */
  lemma Arranged(self: Linkable, node: Linkable, others: seq<Linkable>, theirs: seq<Linkable>, k: nat)
    returns (ring: seq<Linkable>, from: seq<Linkable>)
    requires Ring([self] + others) && node != self
    requires if k < |others| then others[k] == node
             else Ring([node] + theirs) && Apart([self] + others, [node] + theirs)
    ensures Ring(ring) && ring[0] == node && CanMove(self, ring, from)
    ensures forall i :: 0 <= i < |ring| ==> ring[i] == self || ring[i] == node || ring[i] in others || ring[i] in theirs
    ensures forall i :: 0 <= i < |from| ==> from[i] == self || from[i] in others
    ensures self.prev == self || self.prev in others
    ensures self.next == self || self.next in others
    ensures k < |others| ==>
      && self in ring && from == []
      && Without(ring, self) + [self] == [node] + others[k + 1..] + others[..k] + [self]
      && (self.next == node <==> k == 0) && (self.prev == node <==> k + 1 == |others|)
    ensures k >= |others| ==>
      && self !in ring && from == [self] + others && from[1..] == others && Without(ring, self) == [node] + theirs
      && forall x :: x in others ==> x !in [node] + theirs && x != self
  {
    if k < |others| {
      ring, from := ReadFrom([self] + others, node), [];
      ArrangedHere(self, others, k);
      NextAndPrev(self, others, k);
    } else {
      ring, from := [node] + theirs, [self] + others;
      ArrangedThere(self, node, others, theirs);
    }
    SelfInRing(self, others);
  }

  lemma SelfInRing(self: Linkable, others: seq<Linkable>)
    requires Ring([self] + others)
    ensures self.prev == self || self.prev in others
    ensures self.next == self || self.next in others
  {
    InRing([self] + others, 0);
    assert ([self] + others)[0] == self;
  }

  lemma ArrangedHere(self: Linkable, others: seq<Linkable>, k: nat)
    requires Ring([self] + others) && k < |others|
    ensures var ring := ReadFrom([self] + others, others[k]);
            && Ring(ring) && ring[0] == others[k] && self in ring
            && (forall i :: 0 <= i < |ring| ==> ring[i] == self || ring[i] in others)
            && Without(ring, self) + [self] == [others[k]] + others[k + 1..] + others[..k] + [self]
  {
    var s := [self] + others;
    assert s[k + 1] == others[k];
    ReadAt(s, k + 1);
    Turned(s, k + 1);
    TurnedParts(self, others, k);
    CutOut(s[k + 1..] + s[..k + 1], |others| - k);
  }

  lemma ArrangedThere(self: Linkable, node: Linkable, others: seq<Linkable>, theirs: seq<Linkable>)
    requires Distinct([self] + others) && Apart([self] + others, [node] + theirs)
    ensures Apart([node] + theirs, [self] + others) && self !in [node] + theirs
    ensures forall i :: 0 <= i < |[node] + theirs| ==> ([node] + theirs)[i] == node || ([node] + theirs)[i] in theirs
    ensures forall i :: 0 <= i < |[self] + others| ==> ([self] + others)[i] == self || ([self] + others)[i] in others
    ensures Without([node] + theirs, self) == [node] + theirs
    ensures ([self] + others)[0] == self && ([self] + others)[1..] == others
    ensures forall x :: x in others ==> x !in [node] + theirs && x != self
  {
    ApartFromArgument(self, node, others, theirs);
  }

  lemma ApartFromArgument(self: Linkable, node: Linkable, others: seq<Linkable>, theirs: seq<Linkable>)
    requires Distinct([self] + others) && Apart([self] + others, [node] + theirs)
    ensures Apart([node] + theirs, [self] + others) && self !in [node] + theirs
    ensures Without([node] + theirs, self) == [node] + theirs && ([self] + others)[1..] == others
    ensures forall x :: x in others ==> x !in [node] + theirs && x != self
  {
    Anchored(self, others);
    var mine := [self] + others;
    assert mine[0] == self;
    assert forall x :: x in others ==> x in mine;
  }

  lemma InRing(s: seq<Linkable>, k: nat)
    requires Ring(s) && k < |s|
    ensures s[k].next in s && s[k].prev in s
  {
    assert s[k].next == s[After(k, |s|)] && s[k].prev == s[Before(k, |s|)];
  }

  /** A ring read from one of its nodes. */
  ghost function ReadFrom(s: seq<Linkable>, x: Linkable): seq<Linkable>
    requires x in s
  {
    s[Position(s, x)..] + s[..Position(s, x)]
  }

  lemma ReadAt(s: seq<Linkable>, k: nat)
    requires Distinct(s) && k < |s|
    ensures ReadFrom(s, s[k]) == s[k..] + s[..k]
  {
    assert s[Position(s, s[k])] == s[k];
  }

  /** The receiver's ring, read from the argument, and without the receiver. */
  lemma TurnedParts(self: Linkable, others: seq<Linkable>, k: nat)
    requires k < |others|
    ensures var s := [self] + others;
            var ring := s[k + 1..] + s[..k + 1];
            && |ring| == |s| && ring[0] == others[k] && ring[|others| - k] == self
            && (forall i :: 0 <= i < |ring| ==> ring[i] == self || ring[i] in others)
            && ring[..|others| - k] + ring[|others| - k + 1..] + [self]
               == [others[k]] + others[k + 1..] + others[..k] + [self]
  {
    var s := [self] + others;
    var ring := s[k + 1..] + s[..k + 1];
    assert s[k + 1..] == others[k..] && s[..k + 1] == [self] + others[..k];
    assert ring == others[k..] + [self] + others[..k];
    assert ring[..|others| - k] == others[k..] && ring[|others| - k + 1..] == others[..k];
    assert others[k..] == [others[k]] + others[k + 1..];
  }

  lemma NextAndPrev(self: Linkable, others: seq<Linkable>, k: nat)
    requires Ring([self] + others) && k < |others|
    ensures self.next == others[k] <==> k == 0
    ensures self.prev == others[k] <==> k + 1 == |others|
  {
    var s := [self] + others;
    assert s[0].next == s[After(0, |s|)] && s[0].prev == s[Before(0, |s|)];
    assert s[1] == others[0] && s[|others|] == others[|others| - 1] && s[k + 1] == others[k];
  }

  /** The ring that prepend makes out of one ring is the meant one exactly if
      one side of the cut is empty. */
  lemma SelfThenNode(self: Linkable, node: Linkable, xs: seq<Linkable>, ys: seq<Linkable>)
    requires Ring([node] + ys + xs + [self])
    ensures Ring([self, node] + (xs + ys)) <==> xs == [] || ys == []
  {
    var r, m := [node] + ys + xs + [self], [self, node] + (xs + ys);
    var last := |ys| + |xs| + 1;
    Turned(r, last);
    assert r[last..] + r[..last] == [self, node] + (ys + xs);
    if xs == [] || ys == [] {
      assert xs + ys == ys + xs;
    } else {
      assert r[0] == node && r[1] == ys[0] && r[|ys| + 1] == xs[0];
      assert r[0].next == r[After(0, |r|)];
      assert m[1] == node && m[2] == xs[0];
      NoRing(m, 1);
    }
  }

  lemma SelfThenOther(self: Linkable, node: Linkable, others: seq<Linkable>, theirs: seq<Linkable>)
    requires Ring([node] + theirs + [self]) && (forall x :: x in others ==> x !in [node] + theirs && x != self)
    ensures Ring([self, node] + others) <==> others == theirs == []
  {
    var r, m := [node] + theirs + [self], [self, node] + others;
    assert r[0] == node && r[0].next == r[After(0, |r|)] && r[|theirs| + 1] == self;
    if others == theirs == [] {
      Turned(r, 1);
      assert r[1..] + r[..1] == m;
    } else {
      assert m[0] == self && m[1] == node && (theirs != [] ==> r[1] == theirs[0]);
      assert others != [] ==> m[2] == others[0] && others[0] in others;
      NoRing(m, 1);
    }
  }

  lemma NoRing(s: seq<Linkable>, i: nat)
    requires i < |s| && s[i].next != s[After(i, |s|)]
    ensures !Ring(s)
  {
  }

  /** prepend by a receiver that is in no ring: it becomes the last of the ring
      that the argument heads exactly if its links fit, and any other ring stays
      one exactly if it spares that one. */
  method PrependStale(self: Linkable, node: Linkable, ghost theirs: seq<Linkable>, ghost third: seq<Linkable> := [])
    requires Ring([node] + theirs) && self !in [node] + theirs && Elsewhere(self, [node] + theirs, [], third)
    modifies node, theirs, self, self.prev, self.next
    ensures Ring([node] + theirs + [self]) <==> old(StaleFits(self, [node] + theirs))
    ensures theirs == [] ==> (Ring([self, node]) <==> old(StaleFits(self, [node])))
    ensures third != [] ==> (Ring(third) <==> old(Spares(self, third)))
  {
    assert self != ([node] + theirs)[0] == node;
    node.Append(self, [node] + theirs, [], third);
    if theirs == [] {
      assert [node] + theirs + [self] == [node, self] && [node] + theirs == [node];
      Swapped(self, node);
    }
  }

  /** prepend with an argument that is in no ring: the argument comes right
      behind the receiver exactly if the receiver leaves no other node and the
      argument is its own previous node by then; the other nodes, and any other
      ring, stay a ring exactly if the previous node is not among them. */
  method PrependToStale(self: Linkable, node: Linkable, ghost others: seq<Linkable>, ghost third: seq<Linkable> := [])
    requires self != node && (others == [] || (Ring([self] + others) && node !in others))
    requires Elsewhere(self, [node], [self] + others, third)
    modifies node, node.prev, self, self.prev, self.next
    ensures Ring([self, node] + others) <==> others == [] && old(node.PrevWithout(self)) == node
    ensures others != [] ==> (Ring(others) <==> old(node.prev) !in others)
    ensures third != [] ==> (Ring(third) <==> old(Spares(self, third) && node.PrevWithout(self) !in third))
  {
    ghost var theirs := if others == [] then [] else [self] + others;
    assert others != [] ==> theirs[0] == self && theirs[1..] == others && theirs[1] == others[0];
    assert third != [] ==> node in [node];
    node.AppendLoose(self, theirs, third);
    NotBehind(self, node, others);
  }

  lemma NotBehind(self: Linkable, node: Linkable, others: seq<Linkable>)
    requires others != [] ==> others[0].prev != node
    ensures Ring([self, node] + others) <==> others == [] && Ring([node, self])
  {
    Swapped(self, node);
    if others == [] {
      assert [self, node] + others == [self, node];
    } else {
      assert ([self, node] + others)[2] == others[0] && ([self, node] + others)[1] == node;
      NoRingBack([self, node] + others, 2);
    }
  }

  lemma Swapped(x: Linkable, y: Linkable)
    ensures Ring([x, y]) <==> Ring([y, x])
  {
    if Ring([x, y]) {
      Turned([x, y], 1);
      assert [x, y][1..] + [x, y][..1] == [y, x];
    }
    if Ring([y, x]) {
      Turned([y, x], 1);
      assert [y, x][1..] + [y, x][..1] == [x, y];
    }
  }

  lemma NoRingBack(s: seq<Linkable>, i: nat)
    requires i < |s| && s[i].prev != s[Before(i, |s|)]
    ensures !Ring(s)
  {
  }

  // ----- the sentinel and the items -----

  lemma Anchored(self: Linkable, items: seq<Linkable>)
    requires Distinct([self] + items)
    ensures self !in items && Distinct(items)
  {
    var s := [self] + items;
    assert s[0] == self && forall i :: 0 <= i < |items| ==> items[i] == s[i + 1];
  }

  lemma CutOut(s: seq<Linkable>, k: nat)
    requires Distinct(s) && k < |s|
    ensures Without(s, s[k]) == s[..k] + s[k + 1..]
  {
    assert s[Position(s, s[k])] == s[k];
  }

  /** Taking an item out of the anchored ring takes it out of the items. */
  lemma DropAnchor(self: Linkable, items: seq<Linkable>, x: Linkable)
    requires Distinct([self] + items) && x != self
    ensures Without([self] + items, x) == [self] + Without(items, x)
    ensures x in [self] + items <==> x in items
  {
    var s := [self] + items;
    Anchored(self, items);
    if x in items {
      var p := Position(items, x);
      assert s[p + 1] == x && x in s;
      CutOut(s, p + 1);
      CutOut(items, p);
      assert s[..p + 1] + s[p + 2..] == [self] + (items[..p] + items[p + 1..]);
    }
  }
}
