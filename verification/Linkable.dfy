/** Intrusive doubly linked rings and the list built on them.  A ring is a
    sequence of distinct nodes each of which links to the next and the previous
    one, around the end. */
module Linkables {

  class Linkable {
    var prev: Linkable
    var next: Linkable

    constructor ()
      ensures prev == next == this
    {
      prev, next := this, this;
    }

    predicate IsAlone()
      reads this
    {
      next == this
    }

    /** The neighbours this node remembers still link to each other. */
    ghost predicate NeighboursMeet()
      reads this, prev, next
    {
      prev.next == next && next.prev == prev
    }

    /** Links the remembered neighbours to each other; the node itself keeps its
        links. */
    method Detach()
      modifies prev`next, next`prev
      ensures prev == old(prev) && next == old(next) && NeighboursMeet()
    {
      prev.next := next;
      next.prev := prev;
    }

    /** What append does first: a node that is not alone leaves its ring.  With
        stale links it leaves nothing, and the chain of `mine` survives exactly
        if the links fit it, any other ring exactly if the node spares it. */
    method Leave(ghost mine: seq<Linkable>, ghost theirs: seq<Linkable>, ghost third: seq<Linkable>)
      requires Ring(mine) && mine[0] != this && CanMove(this, mine, theirs) && Elsewhere(this, mine, theirs, third)
      modifies prev`next, next`prev
      ensures this in mine ==> Ring(Without(mine, this))
      ensures this !in mine && theirs != [] ==> Ring(mine) && (|theirs| > 1 ==> Ring(theirs[1..]))
      ensures this !in mine && theirs == [] ==> (Chain(mine) <==> old(StaleFits(this, mine)))
      ensures third != [] ==> (Ring(third) <==> this in mine || theirs != [] || old(Spares(this, third)))
      ensures third != [] && (this in mine || theirs != [] || old(Spares(this, third))) ==> mine[0].prev !in third
      ensures old(IsAlone() || NeighboursMeet()) ==> prev.next == old(prev.next) && next.prev == old(next.prev)
      ensures mine[0].prev == old(mine[0].prev) || mine[0].prev == prev
    {
      ghost var spared := this in mine || theirs != [] || Spares(this, third);
      if third != [] {
        Neighbours(mine, theirs, third);
      }
      LeaveRings(mine, theirs);
      if third != [] {
        if old(IsAlone()) {
          Same(third);
        } else {
          LinkedAround(this, third);
          assert Ring(third) <==> spared;
          assert mine[0].prev in third ==> prev in third && next == mine[0] && !spared;
        }
      }
    }

    method LeaveRings(ghost mine: seq<Linkable>, ghost theirs: seq<Linkable>)
      requires Ring(mine) && mine[0] != this && CanMove(this, mine, theirs)
      modifies prev`next, next`prev
      ensures prev == old(prev) && next == old(next) && (old(IsAlone()) || NeighboursMeet())
      ensures this in mine ==> Ring(Without(mine, this))
      ensures this !in mine && theirs != [] ==> Ring(mine) && (|theirs| > 1 ==> Ring(theirs[1..]))
      ensures this !in mine && theirs == [] ==> (Chain(mine) <==> old(StaleFits(this, mine)))
      ensures old(IsAlone() || NeighboursMeet()) ==> prev.next == old(prev.next) && next.prev == old(next.prev)
      ensures mine[0].prev == old(mine[0].prev) || (mine[0].prev == prev && next == mine[0])
    {
      if IsAlone() {
        if this in mine {
          OnlyNode(mine, this);
        }
      } else {
        Detach();
        if this in mine {
          LeftRing(mine, this);
        } else if theirs == [] {
          StaleLeft(mine, prev, next);
        } else {
          Untouched(mine);
          if |theirs| > 1 {
            LeftRing(theirs, this);
            WithoutHead(theirs);
          }
        }
      }
    }

    /** Where the neighbours are, seen from a third ring. */
    lemma Neighbours(mine: seq<Linkable>, theirs: seq<Linkable>, third: seq<Linkable>)
      requires Ring(mine) && mine[0] != this && CanMove(this, mine, theirs) && Elsewhere(this, mine, theirs, third)
      requires third != []
      ensures mine[0].prev in mine && mine[0].prev !in third
      ensures this in mine || theirs != [] ==> prev !in third && next !in third
      ensures prev in third && next == mine[0] ==> !NeighboursMeet()
    {
      RingAt(mine, 0);
      if this in mine {
        RingAt(mine, Position(mine, this));
      } else if theirs != [] {
        RingAt(theirs, 0);
      }
      if prev in third {
        RingAt(third, Position(third, prev));
      }
    }

    /** The four assignments of append close a chain into a ring with the node
        at its end, and nothing but a chain; any other ring survives exactly if
        the node taken to be the last of the chain is not in it. */
    method LinkBefore(node: Linkable,
                      ghost rest: seq<Linkable>, ghost others: seq<Linkable>, ghost third: seq<Linkable>)
      requires rest != [] && Distinct(rest) && rest[0] == this && node !in rest
      requires this !in others && node !in others && this !in third && node !in third
      modifies this, node, prev
      ensures Ring(rest + [node]) <==> old(Chain(rest))
      ensures Ring(others) <==> old(Ring(others) && prev !in others)
      ensures Ring(third) <==> old(Ring(third) && prev !in third)
      ensures forall o: Linkable :: o != this && o != node && old(allocated(o)) ==> o.prev == old(o.prev)
    {
      ghost var last := prev;
      node.next := this;
      node.prev := this.prev;
      prev.next := node;
      prev := node;
      if node.next == this {
        Linked(rest, node);
      } else {
        assert (rest + [node])[|rest|] == node && (rest + [node])[0] == this;
        assert !Ring(rest + [node]) && !old(Chain(rest));
      }
      LinkedElsewhere(others, last, node);
      LinkedElsewhere(third, last, node);
    }

    /** Takes the node out of its place and puts it just before this one.  The
        node may be in this ring or in another one that it heads.  If it is in
        neither, its links are its own or stale: append makes it the last of
        this ring exactly if they fit, and leaves a third ring alone exactly if
        it spares that one. */
    method Append(node: Linkable,
                  ghost mine: seq<Linkable>, ghost theirs: seq<Linkable>, ghost third: seq<Linkable> := [])
      requires Ring(mine) && mine[0] == this && node != this && CanMove(node, mine, theirs)
      requires Elsewhere(node, mine, theirs, third)
      modifies mine, theirs, node, node.prev, node.next
      ensures node in mine || theirs != [] ==> Ring(Without(mine, node) + [node])
      ensures node !in mine && |theirs| > 1 ==> Ring(theirs[1..])
      ensures node !in mine && theirs == [] ==> (Ring(mine + [node]) <==> old(StaleFits(node, mine)))
      ensures third != [] ==> (Ring(third) <==> node in mine || theirs != [] || old(Spares(node, third)))
      ensures node !in mine && theirs == [] && old(node.IsAlone() || node.NeighboursMeet()) ==>
        forall o: Linkable :: o !in mine && o != node && old(allocated(o)) ==>
          o.prev == old(o.prev) && o.next == old(o.next)
    {
      ghost var rest := Without(mine, node);
      WithoutIsRest(mine, node);
      node.Leave(mine, theirs, third);
      ghost var others := if node !in mine && |theirs| > 1 then theirs[1..] else [];
      if others != [] {
        RingAt(mine, 0);
        assert this in mine && prev in mine && forall x :: x in others ==> x in theirs;
        WithoutHead(theirs);
        WithoutIsRest(theirs, node);
      }
      LinkBefore(node, rest, others, third);
    }

    /** append on a receiver that is in no ring itself.  The two nodes form a ring
        exactly if the receiver is its own previous node by then; the ring that
        the node has left, and any other, must not hold the one that is. */
    method AppendLoose(node: Linkable, ghost theirs: seq<Linkable>, ghost third: seq<Linkable> := [])
      requires node != this && this !in third && Elsewhere(node, [], theirs, third)
      requires theirs == [] || (Ring(theirs) && theirs[0] == node && this !in theirs)
      modifies this, prev, node, node.prev, node.next
      ensures Ring([this, node]) <==> old(PrevWithout(node)) == this
      ensures |theirs| > 1 ==> (Ring(theirs[1..]) <==> old(prev) !in theirs[1..])
      ensures |theirs| > 1 ==> theirs[1].prev != this
      ensures third != [] ==> (Ring(third) <==> old(Spares(node, third) && PrevWithout(node) !in third))
    {
      ghost var others := if |theirs| > 1 then theirs[1..] else [];
      NotInRest(this, node, theirs);
      node.LeaveLoose(this, theirs, third);
      LinkPair(node, others, third);
    }

    method LinkPair(node: Linkable, ghost others: seq<Linkable>, ghost third: seq<Linkable>)
      requires node != this && this !in others && node !in others && this !in third && node !in third
      requires others != [] ==> others[0] != this && others[0] != node
      modifies this, node, prev
      ensures Ring([this, node]) <==> old(prev) == this
      ensures Ring(others) <==> old(Ring(others) && prev !in others)
      ensures Ring(third) <==> old(Ring(third) && prev !in third)
      ensures others != [] ==> others[0].prev == old(others[0].prev)
    {
      ChainOfOne(this);
      LinkBefore(node, [this], others, third);
      assert [this] + [node] == [this, node];
    }

    /** The same first step, seen from a receiver that is in no ring. */
    method LeaveLoose(receiver: Linkable, ghost theirs: seq<Linkable>, ghost third: seq<Linkable>)
      requires receiver != this && Elsewhere(this, [], theirs, third)
      requires theirs == [] || (Ring(theirs) && theirs[0] == this && receiver !in theirs)
      modifies prev`next, next`prev
      ensures receiver.prev == old(receiver.PrevWithout(this))
      ensures |theirs| > 1 ==> Ring(theirs[1..]) && theirs[1].prev in theirs[1..]
      ensures |theirs| > 1 ==> old(receiver.PrevWithout(this) == receiver.prev)
      ensures third != [] ==> (Ring(third) <==> old(Spares(this, third)))
    {
      if theirs != [] {
        RingAt(theirs, 0);
      }
      if !IsAlone() {
        Detach();
        if |theirs| > 1 {
          LeftRing(theirs, this);
          WithoutHead(theirs);
          RingAt(theirs[1..], 0);
        }
        if third != [] {
          LinkedAround(this, third);
        }
      }
    }

    /** The previous node, once the other node has left its place. */
    ghost function PrevWithout(node: Linkable): Linkable
      reads this, node
    {
      if !node.IsAlone() && node.next == this then node.prev else prev
    }

    /** ~Linkable: a detach, often a second one.  It takes a node out of the ring
        it is in.  A ring that the node has left before, or was never in, is
        safe from it exactly as long as the neighbours it remembers still meet,
        or are both somewhere else. */
    method Destroy(ghost s: seq<Linkable>)
      requires Ring(s)
      modifies prev`next, next`prev
      ensures this in s && |s| > 1 ==> Ring(Without(s, this))
      ensures this !in s ==> (Ring(s) <==> (prev !in s && next !in s) || old(NeighboursMeet()))
      ensures this !in s && old(NeighboursMeet()) ==> prev.next == old(prev.next) && next.prev == old(next.prev)
    {
      Detach();
      if this in s && |s| > 1 {
        LeftRing(s, this);
      } else if this !in s {
        LinkedAround(this, s);
      }
    }
  }

  /** Where an appended node may come from: this ring, another ring that it
      heads, or no ring. */
  ghost predicate CanMove(node: Linkable, mine: seq<Linkable>, theirs: seq<Linkable>)
    reads mine, theirs
  {
    node in mine || theirs == [] || (Ring(theirs) && theirs[0] == node && Apart(mine, theirs))
  }

  /** The node is alone, or linking its old neighbours to each other does not
      hurt the chain of `mine`: an old next node in it must still come after
      the old previous one, and an old previous node in it must be its last or
      still come before the old next one. */
  ghost predicate StaleFits(node: Linkable, mine: seq<Linkable>)
    reads mine, node, node.prev, node.next
    requires mine != []
  {
    || node.IsAlone()
    || ((node.prev in mine && node.prev != mine[|mine| - 1] ==> node.prev.next == node.next)
        && (node.next in mine ==> node.next.prev == node.prev))
  }

  /** A ring, or none, apart from the node and from the rings it moves between. */
  ghost predicate Elsewhere(node: Linkable, mine: seq<Linkable>, theirs: seq<Linkable>, third: seq<Linkable>)
    reads third
  {
    third == [] || (Ring(third) && Apart(mine, third) && Apart(theirs, third) && node !in third)
  }

  /** The node is alone, or linking its old neighbours to each other does not
      touch the ring s or finds them linked. */
  ghost predicate Spares(node: Linkable, s: seq<Linkable>)
    reads node, node.prev, node.next
  {
    node.IsAlone() || (node.prev !in s && node.next !in s) || node.NeighboursMeet()
  }

  // ----- rings -----

  ghost predicate Distinct(s: seq<Linkable>)
  {
    forall i, j :: 0 <= i < j < |s| ==> s[i] != s[j]
  }

  ghost function After(i: nat, n: nat): nat
    requires i < n
  {
    if i + 1 < n then i + 1 else 0
  }

  ghost function Before(i: nat, n: nat): nat
    requires i < n
  {
    if i > 0 then i - 1 else n - 1
  }

  /** The nodes of s are linked in a circle in this order. */
  ghost predicate Ring(s: seq<Linkable>)
    reads s
  {
    && |s| > 0 && Distinct(s)
    && (forall i {:trigger s[i].next} :: 0 <= i < |s| ==> s[i].next == s[After(i, |s|)])
    && (forall i {:trigger s[i].prev} :: 0 <= i < |s| ==> s[i].prev == s[Before(i, |s|)])
  }

  /** A ring but for the forward link of its last node. */
  ghost predicate Chain(s: seq<Linkable>)
    reads s
  {
    && |s| > 0 && Distinct(s)
    && (forall i {:trigger s[i].next} :: 0 <= i < |s| - 1 ==> s[i].next == s[i + 1])
    && (forall i {:trigger s[i].prev} :: 0 <= i < |s| ==> s[i].prev == s[Before(i, |s|)])
  }

  ghost predicate Apart(s: seq<Linkable>, t: seq<Linkable>)
  {
    forall x :: x in s ==> x !in t
  }

  ghost function Position(s: seq<Linkable>, x: Linkable): (i: nat)
    requires x in s
    ensures i < |s| && s[i] == x
  {
    var i :| 0 <= i < |s| && s[i] == x; i
  }

  ghost function Without(s: seq<Linkable>, x: Linkable): seq<Linkable>
  {
    if x in s then s[..Position(s, x)] + s[Position(s, x) + 1..] else s
  }

  lemma WithoutIsRest(s: seq<Linkable>, x: Linkable)
    requires Distinct(s) && |s| > 0
    ensures Distinct(Without(s, x)) && x !in Without(s, x)
    ensures s[0] != x ==> |Without(s, x)| > 0 && Without(s, x)[0] == s[0]
    ensures forall y :: y in Without(s, x) <==> y in s && y != x
  {
  }

  /** The index in s of the i-th node that is left when s[k] is gone. */
  ghost function Skip(i: nat, k: nat): nat { if i < k then i else i + 1 }

  lemma SkipSteps(i: nat, k: nat, n: nat)
    requires i < n - 1 && k < n
    ensures Skip(After(i, n - 1), k) == if Skip(i, k) == Before(k, n) then After(k, n) else After(Skip(i, k), n)
    ensures Skip(Before(i, n - 1), k) == if Skip(i, k) == After(k, n) then Before(k, n) else Before(Skip(i, k), n)
  {
  }

  lemma SkipAt(s: seq<Linkable>, k: nat)
    requires k < |s|
    ensures |s[..k] + s[k + 1..]| == |s| - 1
    ensures forall i :: 0 <= i < |s| - 1 ==> (s[..k] + s[k + 1..])[i] == s[Skip(i, k)]
  {
  }

  lemma SkipDistinct(s: seq<Linkable>, k: nat)
    requires Distinct(s) && k < |s|
    ensures Distinct(s[..k] + s[k + 1..])
  {
    SkipAt(s, k);
  }

  /** Linking the neighbours of s[k] to each other leaves the ring of the
      others. */
  twostate lemma Unlinked(s: seq<Linkable>, new k: nat)
    requires old(Ring(s)) && |s| > 1 && k < |s|
    requires old(s[k].prev).next == old(s[k].next) && old(s[k].next).prev == old(s[k].prev)
    requires forall x :: x in s && x != old(s[k].prev) ==> x.next == old(x.next)
    requires forall x :: x in s && x != old(s[k].next) ==> x.prev == old(x.prev)
    ensures Ring(s[..k] + s[k + 1..])
  {
    var r := s[..k] + s[k + 1..];
    SkipAt(s, k);
    SkipDistinct(s, k);
    forall i | 0 <= i < |r| ensures r[i].next == r[After(i, |r|)] {
      SkipSteps(i, k, |s|);
      UnlinkedNext(s, k, Skip(i, k));
    }
    forall i | 0 <= i < |r| ensures r[i].prev == r[Before(i, |r|)] {
      SkipSteps(i, k, |s|);
      UnlinkedPrev(s, k, Skip(i, k));
    }
  }

  twostate lemma UnlinkedNext(s: seq<Linkable>, new k: nat, new o: nat)
    requires old(Ring(s)) && |s| > 1 && k < |s| && o < |s|
    requires old(s[k].prev).next == old(s[k].next)
    requires forall x :: x in s && x != old(s[k].prev) ==> x.next == old(x.next)
    ensures s[o].next == s[if o == Before(k, |s|) then After(k, |s|) else After(o, |s|)]
  {
    assert old(s[k].prev) == s[Before(k, |s|)] && old(s[k].next) == s[After(k, |s|)];
    assert o != Before(k, |s|) ==> s[o] != s[Before(k, |s|)];
    assert old(s[o].next) == s[After(o, |s|)];
  }

  twostate lemma UnlinkedPrev(s: seq<Linkable>, new k: nat, new o: nat)
    requires old(Ring(s)) && |s| > 1 && k < |s| && o < |s|
    requires old(s[k].next).prev == old(s[k].prev)
    requires forall x :: x in s && x != old(s[k].next) ==> x.prev == old(x.prev)
    ensures s[o].prev == s[if o == After(k, |s|) then Before(k, |s|) else Before(o, |s|)]
  {
    assert old(s[k].prev) == s[Before(k, |s|)] && old(s[k].next) == s[After(k, |s|)];
    assert o != After(k, |s|) ==> s[o] != s[After(k, |s|)];
    assert old(s[o].prev) == s[Before(o, |s|)];
  }

  twostate lemma LeftRing(s: seq<Linkable>, new x: Linkable)
    requires old(Ring(s)) && |s| > 1 && x in s
    requires old(x.prev).next == old(x.next) && old(x.next).prev == old(x.prev)
    requires forall y :: y in s && y != old(x.prev) ==> y.next == old(y.next)
    requires forall y :: y in s && y != old(x.next) ==> y.prev == old(y.prev)
    ensures Ring(Without(s, x))
  {
    Unlinked(s, Position(s, x));
  }

  lemma WithoutHead(s: seq<Linkable>)
    requires Distinct(s) && s != []
    ensures Without(s, s[0]) == s[1..]
  {
    assert s[Position(s, s[0])] == s[0];
    assert s[..0] + s[1..] == s[1..];
  }

  /** A ring none of whose links changed is still a ring. */
  twostate lemma Untouched(s: seq<Linkable>)
    requires old(Ring(s))
    requires forall x :: x in s ==> x.next == old(x.next) && x.prev == old(x.prev)
    ensures Ring(s)
  {
  }

  /** A node linked in before s[0] makes a chain a ring, and only a chain. */
  twostate lemma Linked(s: seq<Linkable>, new x: Linkable)
    requires |s| > 0 && Distinct(s) && x !in s
    requires x.next == s[0] && x.prev == old(s[0].prev) && old(s[0].prev).next == x && s[0].prev == x
    requires forall y :: y in s && y != old(s[0].prev) ==> y.next == old(y.next)
    requires forall y :: y in s && y != s[0] ==> y.prev == old(y.prev)
    ensures Ring(s + [x]) <==> old(Chain(s))
  {
    if old(Chain(s)) {
      LinkedRing(s, x);
    }
    if Ring(s + [x]) {
      LinkedChain(s, x);
    }
  }

  twostate lemma LinkedRing(s: seq<Linkable>, new x: Linkable)
    requires old(Chain(s)) && x !in s
    requires x.next == s[0] && x.prev == old(s[0].prev) && old(s[0].prev).next == x && s[0].prev == x
    requires forall y :: y in s && y != old(s[0].prev) ==> y.next == old(y.next)
    requires forall y :: y in s && y != s[0] ==> y.prev == old(y.prev)
    ensures Ring(s + [x])
  {
    var r, n := s + [x], |s|;
    assert old(s[0].prev) == s[n - 1];
    forall i | 0 <= i < |r|
      ensures r[i].next == r[After(i, |r|)] && r[i].prev == r[Before(i, |r|)]
    {
      if i < n {
        assert r[i] == s[i] && old(s[i].prev) == s[Before(i, n)];
        assert s[i] == s[n - 1] <==> i == n - 1;
        assert s[i] == s[0] <==> i == 0;
        if i < n - 1 {
          assert old(s[i].next) == s[i + 1];
        }
      }
    }
  }

  twostate lemma LinkedChain(s: seq<Linkable>, new x: Linkable)
    requires |s| > 0 && Distinct(s) && x !in s && Ring(s + [x])
    requires x.prev == old(s[0].prev) && old(s[0].prev).next == x
    requires forall y :: y in s && y != old(s[0].prev) ==> y.next == old(y.next)
    requires forall y :: y in s && y != s[0] ==> y.prev == old(y.prev)
    ensures old(Chain(s))
  {
    var r, n := s + [x], |s|;
    assert r[n] == x && x.prev == r[Before(n, |r|)] == s[n - 1];
    forall i | 0 <= i < n - 1 ensures old(s[i].next) == s[i + 1] {
      assert r[i] == s[i] && r[i].next == r[After(i, |r|)];
      assert s[i] != s[n - 1];
    }
    forall i | 0 <= i < n ensures old(s[i].prev) == s[Before(i, n)] {
      assert r[i] == s[i] && r[i].prev == r[Before(i, |r|)];
      assert i > 0 ==> s[i] != s[0];
    }
  }

  /** A chain survives new links between p and n exactly if they fit it. */
  twostate lemma StaleLeft(s: seq<Linkable>, new p: Linkable, new n: Linkable)
    requires old(Ring(s)) && p.next == n && n.prev == p
    requires forall y :: y in s && y != p ==> y.next == old(y.next)
    requires forall y :: y in s && y != n ==> y.prev == old(y.prev)
    ensures Chain(s) <==> ((p in s && p != s[|s| - 1] ==> n == s[After(Position(s, p), |s|)])
                           && (n in s ==> p == s[Before(Position(s, n), |s|)]))
  {
    if (p in s && p != s[|s| - 1] ==> n == s[After(Position(s, p), |s|)])
       && (n in s ==> p == s[Before(Position(s, n), |s|)]) {
      forall i | 0 <= i < |s| ensures i < |s| - 1 ==> s[i].next == s[i + 1] {
        assert old(s[i].next) == s[After(i, |s|)];
      }
      forall i | 0 <= i < |s| ensures s[i].prev == s[Before(i, |s|)] {
        assert old(s[i].prev) == s[Before(i, |s|)];
      }
    }
  }

  /** A node that is its own next is alone in its ring. */
  lemma OnlyNode(s: seq<Linkable>, x: Linkable)
    requires Ring(s) && x in s && x.IsAlone()
    ensures s == [x]
  {
    var k := Position(s, x);
    assert s[k].next == s[After(k, |s|)];
  }

  twostate lemma Same(s: seq<Linkable>)
    requires forall x :: x in s ==> x.next == old(x.next) && x.prev == old(x.prev)
    ensures Ring(s) <==> old(Ring(s))
  {
  }

  lemma ChainOfOne(x: Linkable)
    ensures Chain([x]) <==> x.prev == x
  {
    assert [x][0] == x && (Chain([x]) <==> [x][0].prev == [x][Before(0, 1)]);
  }

  lemma NotInRest(x: Linkable, node: Linkable, s: seq<Linkable>)
    requires s == [] || (Distinct(s) && s[0] == node && x !in s)
    ensures |s| > 1 ==> x !in s[1..] && node !in s[1..]
  {
  }

  /** Linking x to a node outside leaves s a ring exactly if x is not in it. */
  twostate lemma LinkedElsewhere(s: seq<Linkable>, new x: Linkable, new node: Linkable)
    requires node !in s && x.next == node
    requires forall y :: y in s && y != x ==> y.next == old(y.next)
    requires forall y :: y in s ==> y.prev == old(y.prev)
    ensures Ring(s) <==> old(Ring(s)) && x !in s
  {
    if x in s {
      LinkedOut(s, x);
    } else {
      Same(s);
    }
  }

  /** A sequence one of whose nodes links to a node outside is no ring. */
  lemma LinkedOut(s: seq<Linkable>, x: Linkable)
    requires x in s && x.next !in s
    ensures !Ring(s)
  {
    var i := Position(s, x);
    assert After(i, |s|) < |s| && s[i].next != s[After(i, |s|)];
  }

  /** Linking the neighbours of a node outside s to each other leaves s a ring
      exactly if they are not in s, or were linked before. */
  twostate lemma LinkedAround(new x: Linkable, s: seq<Linkable>)
    requires old(allocated(x)) && old(Ring(s)) && x !in s
    requires x.prev == old(x.prev) && x.next == old(x.next) && x.NeighboursMeet()
    requires forall y :: y in s && y != x.prev ==> y.next == old(y.next)
    requires forall y :: y in s && y != x.next ==> y.prev == old(y.prev)
    requires old(x.NeighboursMeet()) ==> x.prev.next == old(x.prev.next) && x.next.prev == old(x.next.prev)
    ensures Ring(s) <==> (x.prev !in s && x.next !in s) || old(x.NeighboursMeet())
  {
    if (x.prev !in s && x.next !in s) || old(x.NeighboursMeet()) {
      Untouched(s);
    } else {
      NextStays(s, if x.prev in s then Position(s, x.prev) else 0);
      PrevStays(s, if x.next in s then Position(s, x.next) else 0);
    }
  }

  /** As long as s is a ring, s[i] has the neighbour it had. */
  twostate lemma NextStays(s: seq<Linkable>, new i: nat)
    requires old(Ring(s)) && i < |s|
    ensures Ring(s) ==> s[i].next == old(s[i].next)
    ensures old(s[i].next.prev) == s[i]
  {
    assert s[i].next == s[After(i, |s|)] || !Ring(s);
    assert old(s[After(i, |s|)].prev) == s[Before(After(i, |s|), |s|)];
  }

  twostate lemma PrevStays(s: seq<Linkable>, new i: nat)
    requires old(Ring(s)) && i < |s|
    ensures Ring(s) ==> s[i].prev == old(s[i].prev)
    ensures old(s[i].prev.next) == s[i]
  {
    assert s[i].prev == s[Before(i, |s|)] || !Ring(s);
    assert old(s[Before(i, |s|)].next) == s[After(Before(i, |s|), |s|)];
  }

  ghost function TurnedIndex(i: nat, k: nat, n: nat): nat
    requires i < n && k < n
  {
    if i + k < n then i + k else i + k - n
  }

  lemma TurnedSteps(i: nat, k: nat, n: nat)
    requires i < n && k < n
    ensures TurnedIndex(After(i, n), k, n) == After(TurnedIndex(i, k, n), n)
    ensures TurnedIndex(Before(i, n), k, n) == Before(TurnedIndex(i, k, n), n)
  {
  }

  lemma TurnedAt(s: seq<Linkable>, k: nat)
    requires k < |s|
    ensures |s[k..] + s[..k]| == |s|
    ensures forall i :: 0 <= i < |s| ==> (s[k..] + s[..k])[i] == s[TurnedIndex(i, k, |s|)]
  {
  }

  lemma TurnedDistinct(s: seq<Linkable>, k: nat)
    requires Distinct(s) && k < |s|
    ensures Distinct(s[k..] + s[..k])
  {
    TurnedAt(s, k);
  }

  lemma RingAt(s: seq<Linkable>, i: nat)
    requires Ring(s) && i < |s|
    ensures s[i].next == s[After(i, |s|)] && s[i].prev == s[Before(i, |s|)]
  {
  }

  /** A ring may be read from any of its nodes. */
  lemma Turned(s: seq<Linkable>, k: nat)
    requires Ring(s) && k < |s|
    ensures Ring(s[k..] + s[..k])
  {
    var r, n := s[k..] + s[..k], |s|;
    TurnedAt(s, k);
    TurnedDistinct(s, k);
    forall i | 0 <= i < n ensures r[i].next == r[After(i, n)] && r[i].prev == r[Before(i, n)] {
      TurnedSteps(i, k, n);
      RingAt(s, TurnedIndex(i, k, n));
    }
  }
}
