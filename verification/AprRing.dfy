/** The ring macros as they run: pointer writes on shared elements, in place. */
module AprRing {
  import opened Links
  import Ops = RingOps
  import Check = RingCheck
  import Move = RingMove

  /** The name of an APR_RING_ENTRY field. An element with two of them can be on two rings. */
  datatype Link = A | B

  function Other(l: Link): Link {
    if l == A then B else A
  }

  /** An element struct with two entries and some data that no ring macro touches. */
  class Element<D(0)> {
    const data: D
    var nextA: Element<D>
    var prevA: Element<D>
    var nextB: Element<D>
    var prevB: Element<D>

    constructor (data: D)
      ensures this.data == data
    {
      this.data := data;
      nextA, prevA, nextB, prevB := this, this, this, this;
    }

    /** The phantom element whose entry is a ring head. Its data is never looked at. */
    constructor Phantom() {
      nextA, prevA, nextB, prevB := this, this, this, this;
    }

    /** APR_RING_NEXT */
    function Next(l: Link): Element<D>
      reads this
    {
      if l == A then nextA else nextB
    }

    /** APR_RING_PREV */
    function Prev(l: Link): Element<D>
      reads this
    {
      if l == A then prevA else prevB
    }

    method AssignNext(l: Link, v: Element<D>, ghost S: set<Element<D>>)
      requires this in S
      modifies this
      ensures Snap(S, l) == SetNext(old(Snap(S, l)), this, v)
      ensures Snap(S, Other(l)) == old(Snap(S, Other(l)))
    {
      if l == A { nextA := v; } else { nextB := v; }
    }

    method AssignPrev(l: Link, v: Element<D>, ghost S: set<Element<D>>)
      requires this in S
      modifies this
      ensures Snap(S, l) == SetPrev(old(Snap(S, l)), this, v)
      ensures Snap(S, Other(l)) == old(Snap(S, Other(l)))
    {
      if l == A { prevA := v; } else { prevB := v; }
    }
  }

  /** The pointers that the elements of S hold through link l. */
  ghost function Snap<D(0)>(S: set<Element<D>>, l: Link): Store<Element<D>>
    reads S
  {
    map x | x in S :: Cell(x.Next(l), x.Prev(l))
  }

  /** Only entries of link l, and among them only those of elements in zs, differ from before. */
  twostate predicate OnlyWithin<D(0)>(S: set<Element<D>>, l: Link, zs: seq<Element<D>>)
    reads S
  {
    && Snap(S, Other(l)) == old(Snap(S, Other(l)))
    && forall x :: x in S && x !in zs ==> Snap(S, l)[x] == old(Snap(S, l))[x]
  }

  /** Rings of the same link that share no element with zs, and all rings of the other link, are kept. */
  twostate lemma RingsKept<D(0)>(S: set<Element<D>>, l: Link, zs: seq<Element<D>>, c: seq<Element<D>>, d: seq<Element<D>>)
    requires OnlyWithin(S, l, zs) && Disjoint(c, zs)
    requires old(Ring(Snap(S, l), c)) && old(Ring(Snap(S, Other(l)), d))
    ensures Ring(Snap(S, l), c) && Ring(Snap(S, Other(l)), d)
  {
    RingFrame(old(Snap(S, l)), Snap(S, l), c);
  }

  method ElemInit<D(0)>(ep: Element<D>, l: Link, ghost S: set<Element<D>>)
    requires ep in S
    modifies ep
    ensures Snap(S, l) == Ops.ElemInit(old(Snap(S, l)), ep)
    ensures Snap(S, Other(l)) == old(Snap(S, Other(l)))
  {
    ep.AssignNext(l, ep, S);
    ep.AssignPrev(l, ep, S);
  }

  method SpliceBefore<D(0)>(lep: Element<D>, ep1: Element<D>, epN: Element<D>, l: Link, ghost S: set<Element<D>>)
    requires lep in S && ep1 in S && epN in S && lep.Prev(l) in S
    modifies lep, ep1, epN, lep.Prev(l)
    ensures Snap(S, l) == Ops.SpliceBefore(old(Snap(S, l)), lep, ep1, epN)
    ensures Snap(S, Other(l)) == old(Snap(S, Other(l)))
  {
    ghost var h := Snap(S, l);
    epN.AssignNext(l, lep, S);
    assert Snap(S, l)[lep].prev == h[lep].prev;
    ep1.AssignPrev(l, lep.Prev(l), S);
    assert Snap(S, l)[lep].prev == h[lep].prev;
    lep.Prev(l).AssignNext(l, ep1, S);
    lep.AssignPrev(l, epN, S);
  }

  method SpliceAfter<D(0)>(lep: Element<D>, ep1: Element<D>, epN: Element<D>, l: Link, ghost S: set<Element<D>>)
    requires lep in S && ep1 in S && epN in S && lep.Next(l) in S
    modifies lep, ep1, epN, lep.Next(l)
    ensures Snap(S, l) == Ops.SpliceAfter(old(Snap(S, l)), lep, ep1, epN)
    ensures Snap(S, Other(l)) == old(Snap(S, Other(l)))
  {
    ghost var h := Snap(S, l);
    ep1.AssignPrev(l, lep, S);
    assert Snap(S, l)[lep].next == h[lep].next;
    epN.AssignNext(l, lep.Next(l), S);
    assert Snap(S, l)[lep].next == h[lep].next;
    lep.Next(l).AssignPrev(l, epN, S);
    lep.AssignNext(l, ep1, S);
  }

  method Unsplice<D(0)>(ep1: Element<D>, epN: Element<D>, l: Link, ghost S: set<Element<D>>)
    requires ep1 in S && epN in S && ep1.Prev(l) in S && epN.Next(l) in S
    modifies ep1.Prev(l), epN.Next(l)
    ensures Snap(S, l) == Ops.Unsplice(old(Snap(S, l)), ep1, epN)
    ensures Snap(S, Other(l)) == old(Snap(S, Other(l)))
  {
    ghost var h := Snap(S, l);
    ep1.Prev(l).AssignNext(l, epN.Next(l), S);
    assert Snap(S, l)[ep1].prev == h[ep1].prev && Snap(S, l)[epN].next == h[epN].next;
    epN.Next(l).AssignPrev(l, ep1.Prev(l), S);
  }

  method InsertBefore<D(0)>(lep: Element<D>, nep: Element<D>, l: Link, ghost S: set<Element<D>>)
    requires lep in S && nep in S && lep.Prev(l) in S
    modifies lep, nep, lep.Prev(l)
    ensures Snap(S, l) == Ops.SpliceBefore(old(Snap(S, l)), lep, nep, nep)
    ensures Snap(S, Other(l)) == old(Snap(S, Other(l)))
  {
    SpliceBefore(lep, nep, nep, l, S);
  }

  method InsertAfter<D(0)>(lep: Element<D>, nep: Element<D>, l: Link, ghost S: set<Element<D>>)
    requires lep in S && nep in S && lep.Next(l) in S
    modifies lep, nep, lep.Next(l)
    ensures Snap(S, l) == Ops.SpliceAfter(old(Snap(S, l)), lep, nep, nep)
    ensures Snap(S, Other(l)) == old(Snap(S, Other(l)))
  {
    SpliceAfter(lep, nep, nep, l, S);
  }

  method Remove<D(0)>(ep: Element<D>, l: Link, ghost S: set<Element<D>>)
    requires ep in S && ep.Prev(l) in S && ep.Next(l) in S
    modifies ep.Prev(l), ep.Next(l)
    ensures Snap(S, l) == Ops.Unsplice(old(Snap(S, l)), ep, ep)
    ensures Snap(S, Other(l)) == old(Snap(S, Other(l)))
  {
    Unsplice(ep, ep, l, S);
  }

  /**
   * APR_RING_CHECK_ELEM_CONSISTENCY; ok is false where the macro pops an assertion. Nothing is asked
   * of the memory but that the pointers the walk follows lead to elements.
   */
  method CheckElemConsistency<D(0)>(ep: Element<D>, l: Link, ghost S: set<Element<D>>) returns (ok: bool)
    requires ep in S && !Check.Walk(Snap(S, l), [ep]).Wild?
    ensures ok <==> exists c :: Ring(Snap(S, l), c) && c[0] == ep
  {
    ghost var h := Snap(S, l);
    var here := ep;
    ghost var path := [ep];
    while true
      invariant |path| > 0 && Chain(h, path) && path[0] == ep && Last(path) == here && here in S
      invariant Check.Walk(h, path) == Check.Walk(h, [ep])
      decreases |h.Keys| - |path|
    {
      Check.Progress(h, path);
      assert h[here] == Cell(here.Next(l), here.Prev(l));
      assert here.Next(l) in S;
      assert h[here.Next(l)].prev == here.Next(l).Prev(l);
      if here.Next(l).Prev(l) != here {
        assert Check.Walk(h, path) == Check.NextPrevFailed(here);
        Check.CheckIsExact(h, ep);
        return false;
      }
      assert here.Prev(l) in S;
      assert h[here.Prev(l)].next == here.Prev(l).Next(l);
      if here.Prev(l).Next(l) != here {
        assert Check.Walk(h, path) == Check.PrevNextFailed(here);
        Check.CheckIsExact(h, ep);
        return false;
      }
      here := here.Next(l);
      if here == ep {
        Check.CheckIsExact(h, ep);
        return true;
      }
      path := path + [here];
    }
  }

  function Reverse<T>(xs: seq<T>): seq<T> {
    if |xs| == 0 then [] else [Last(xs)] + Reverse(xs[..|xs| - 1])
  }

  /** A ring head: the entry of a phantom element. */
  class Head<D(0)> {
    const link: Link
    const sentinel: Element<D>

    /** The ring of this head is proper and its elements are xs. */
    ghost predicate Holds(S: set<Element<D>>, xs: seq<Element<D>>)
      reads S
    {
      Ring(Snap(S, link), [sentinel] + xs)
    }

    constructor (link: Link)
      ensures this.link == link && fresh(sentinel) && Holds({sentinel}, [])
    {
      this.link := link;
      var s := new Element<D>.Phantom();
      this.sentinel := s;
      new;
      Init({sentinel});
    }

    /** APR_RING_FIRST */
    function First(): Element<D>
      reads sentinel
    {
      sentinel.Next(link)
    }

    /** APR_RING_LAST */
    function Last(): Element<D>
      reads sentinel
    {
      sentinel.Prev(link)
    }

    /** APR_RING_EMPTY */
    predicate Empty()
      reads sentinel
    {
      First() == sentinel
    }

    method Init(ghost S: set<Element<D>>)
      requires sentinel in S
      modifies sentinel
      ensures Snap(S, link) == Ops.ElemInit(old(Snap(S, link)), sentinel) && Holds(S, [])
      ensures Snap(S, Other(link)) == old(Snap(S, Other(link)))
    {
      sentinel.AssignNext(link, sentinel, S);
      sentinel.AssignPrev(link, sentinel, S);
      Ops.ElemInitRing(Snap(S, link), sentinel);
      assert [sentinel] + [] == [sentinel];
    }

    /** Whatever the ring holds, the sentinel's own pointers name elements of S. */
    lemma Ends(S: set<Element<D>>, xs: seq<Element<D>>)
      requires Holds(S, xs)
      ensures sentinel in S && First() in S && Last() in S
      ensures First() == (xs + [sentinel])[0] && Last() == ([sentinel] + xs)[|xs|]
      ensures Empty() <==> xs == []
    {
      var c := [sentinel] + xs;
      Ops.AtLinked(Snap(S, link), c, 1);
    }

    /** NEXT of the first element: the second one, or the sentinel. */
    lemma Second(S: set<Element<D>>, xs: seq<Element<D>>)
      requires Holds(S, xs) && |xs| > 0
      ensures First() == xs[0] && First().Next(link) == (xs + [sentinel])[1]
    {
      Ends(S, xs);
      Ops.HeadNeighbours(Snap(S, link), sentinel, xs, 0);
    }

    method SpliceHead(ep1: Element<D>, epN: Element<D>,
                      ghost S: set<Element<D>>, ghost xs: seq<Element<D>>, ghost ch: seq<Element<D>>)
      requires Holds(S, xs) && Chain(Snap(S, link), ch) && Disjoint([sentinel] + xs, ch)
      requires |ch| > 0 && ch[0] == ep1 && Links.Last(ch) == epN
      modifies sentinel, sentinel.Next(link), ep1, epN
      ensures Holds(S, ch + xs) && OnlyWithin(S, link, [sentinel] + xs + ch)
    {
      ghost var k := Ops.SpliceAtHead(Snap(S, link), sentinel, xs, ch);
      SpliceAfter(sentinel, ep1, epN, link, S);
    }

    method SpliceTail(ep1: Element<D>, epN: Element<D>,
                      ghost S: set<Element<D>>, ghost xs: seq<Element<D>>, ghost ch: seq<Element<D>>)
      requires Holds(S, xs) && Chain(Snap(S, link), ch) && Disjoint([sentinel] + xs, ch)
      requires |ch| > 0 && ch[0] == ep1 && Links.Last(ch) == epN
      modifies sentinel, sentinel.Prev(link), ep1, epN
      ensures Holds(S, xs + ch) && OnlyWithin(S, link, [sentinel] + xs + ch)
    {
      ghost var k := Ops.SpliceAtTail(Snap(S, link), sentinel, xs, ch);
      SpliceBefore(sentinel, ep1, epN, link, S);
    }

    method InsertHead(nep: Element<D>, ghost S: set<Element<D>>, ghost xs: seq<Element<D>>)
      requires Holds(S, xs) && nep in S && nep !in [sentinel] + xs
      modifies sentinel, sentinel.Next(link), nep
      ensures Holds(S, [nep] + xs) && OnlyWithin(S, link, [sentinel] + xs + [nep])
    {
      SpliceHead(nep, nep, S, xs, [nep]);
    }

    method InsertTail(nep: Element<D>, ghost S: set<Element<D>>, ghost xs: seq<Element<D>>)
      requires Holds(S, xs) && nep in S && nep !in [sentinel] + xs
      modifies sentinel, sentinel.Prev(link), nep
      ensures Holds(S, xs + [nep]) && OnlyWithin(S, link, [sentinel] + xs + [nep])
    {
      SpliceTail(nep, nep, S, xs, [nep]);
    }

    /** No two of the four pointers that joining h2 to this ring goes through are confused with a head. */
    ghost predicate Apart(h2: Head<D>)
      reads sentinel, h2.sentinel
    {
      && link == h2.link && sentinel != h2.sentinel
      && First() != h2.sentinel && Last() != h2.sentinel && h2.First() != sentinel && h2.Last() != sentinel
      && (h2.First() == h2.sentinel <==> h2.Last() == h2.sentinel)
    }

    lemma RingsApart(h2: Head<D>, S: set<Element<D>>, xs: seq<Element<D>>, ys: seq<Element<D>>)
      requires h2.link == link && Holds(S, xs) && h2.Holds(S, ys)
      requires Disjoint([sentinel] + xs, [h2.sentinel] + ys)
      ensures Ops.HeadsReady(Snap(S, link), sentinel, h2.sentinel) && Apart(h2)
    {
      var c1, c2 := [sentinel] + xs, [h2.sentinel] + ys;
      Ends(S, xs);
      h2.Ends(S, ys);
      assert c1[0] in c1 && c2[0] in c2 && First() in c1 && Last() in c1 && h2.First() in c2 && h2.Last() in c2;
    }

    /** The writes of APR_RING_CONCAT. FIRST(h2) and LAST(h2) are arguments by name: each write reads them again. */
    method ConcatWrites(h2: Head<D>, ghost S: set<Element<D>>)
      requires Apart(h2) && Ops.HeadsReady(Snap(S, link), sentinel, h2.sentinel)
      modifies sentinel, sentinel.Prev(link), h2.sentinel, h2.First(), h2.Last()
      ensures Snap(S, link) == Ops.Concat(old(Snap(S, link)), sentinel, h2.sentinel)
      ensures Snap(S, Other(link)) == old(Snap(S, Other(link)))
    {
      if !h2.Empty() {
        ghost var h := Snap(S, link);
        h2.Last().AssignNext(link, sentinel, S);
        assert Snap(S, link)[h2.sentinel] == h[h2.sentinel] && Snap(S, link)[sentinel].prev == h[sentinel].prev;
        h2.First().AssignPrev(link, sentinel.Prev(link), S);
        assert Snap(S, link)[h2.sentinel] == h[h2.sentinel] && Snap(S, link)[sentinel].prev == h[sentinel].prev;
        sentinel.Prev(link).AssignNext(link, h2.First(), S);
        assert Snap(S, link)[h2.sentinel] == h[h2.sentinel];
        sentinel.AssignPrev(link, h2.Last(), S);
        h2.Init(S);
      }
    }

    /** APR_RING_CONCAT */
    method Concat(h2: Head<D>, ghost S: set<Element<D>>, ghost xs: seq<Element<D>>, ghost ys: seq<Element<D>>)
      requires h2.link == link && Holds(S, xs) && h2.Holds(S, ys)
      requires Disjoint([sentinel] + xs, [h2.sentinel] + ys)
      modifies sentinel, sentinel.Prev(link), h2.sentinel, h2.First(), h2.Last()
      ensures Holds(S, xs + ys) && h2.Holds(S, [])
      ensures OnlyWithin(S, link, [sentinel] + xs + ([h2.sentinel] + ys))
    {
      RingsApart(h2, S, xs, ys);
      Ops.ConcatHeads(Snap(S, link), sentinel, xs, h2.sentinel, ys);
      ConcatWrites(h2, S);
    }

    /** The writes of APR_RING_PREPEND, with the same re-reading. */
    method PrependWrites(h2: Head<D>, ghost S: set<Element<D>>)
      requires Apart(h2) && Ops.HeadsReady(Snap(S, link), sentinel, h2.sentinel)
      modifies sentinel, sentinel.Next(link), h2.sentinel, h2.First(), h2.Last()
      ensures Snap(S, link) == Ops.Prepend(old(Snap(S, link)), sentinel, h2.sentinel)
      ensures Snap(S, Other(link)) == old(Snap(S, Other(link)))
    {
      if !h2.Empty() {
        ghost var h := Snap(S, link);
        h2.First().AssignPrev(link, sentinel, S);
        assert Snap(S, link)[h2.sentinel] == h[h2.sentinel] && Snap(S, link)[sentinel].next == h[sentinel].next;
        h2.Last().AssignNext(link, sentinel.Next(link), S);
        assert Snap(S, link)[h2.sentinel] == h[h2.sentinel] && Snap(S, link)[sentinel].next == h[sentinel].next;
        sentinel.Next(link).AssignPrev(link, h2.Last(), S);
        assert Snap(S, link)[h2.sentinel] == h[h2.sentinel];
        sentinel.AssignNext(link, h2.First(), S);
        h2.Init(S);
      }
    }

    /** APR_RING_PREPEND */
    method Prepend(h2: Head<D>, ghost S: set<Element<D>>, ghost xs: seq<Element<D>>, ghost ys: seq<Element<D>>)
      requires h2.link == link && Holds(S, xs) && h2.Holds(S, ys)
      requires Disjoint([sentinel] + xs, [h2.sentinel] + ys)
      modifies sentinel, sentinel.Next(link), h2.sentinel, h2.First(), h2.Last()
      ensures Holds(S, ys + xs) && h2.Holds(S, [])
      ensures OnlyWithin(S, link, [sentinel] + xs + ([h2.sentinel] + ys))
    {
      RingsApart(h2, S, xs, ys);
      Ops.PrependHeads(Snap(S, link), sentinel, xs, h2.sentinel, ys);
      PrependWrites(h2, S);
    }

    /** APR_RING_FOREACH, noting each element it comes to. */
    method Foreach(ghost S: set<Element<D>>, ghost xs: seq<Element<D>>) returns (visited: seq<Element<D>>)
      requires Holds(S, xs)
      ensures visited == xs
    {
      Ends(S, xs);
      visited := [];
      var ep := First();
      while ep != sentinel
        invariant |visited| <= |xs| && visited == xs[..|visited|]
        invariant ep == (xs + [sentinel])[|visited|]
        decreases |xs| - |visited|
      {
        Ops.HeadNeighbours(Snap(S, link), sentinel, xs, |visited|);
        visited := visited + [ep];
        ep := ep.Next(link);
      }
      if |visited| < |xs| {
        Ops.HeadNeighbours(Snap(S, link), sentinel, xs, |visited|);
      }
    }

    /** Following APR_RING_PREV from APR_RING_LAST. */
    method Backwards(ghost S: set<Element<D>>, ghost xs: seq<Element<D>>) returns (visited: seq<Element<D>>)
      requires Holds(S, xs)
      ensures visited == Reverse(xs)
    {
      ghost var n := |xs|;
      Ends(S, xs);
      visited := [];
      assert xs[..n] == xs;
      var ep := Last();
      while ep != sentinel
        invariant 0 <= n <= |xs| && ep == ([sentinel] + xs)[n]
        invariant visited + Reverse(xs[..n]) == Reverse(xs)
        decreases n
      {
        assert xs[..n][..n - 1] == xs[..n - 1] && Links.Last(xs[..n]) == ep;
        Ops.HeadNeighbours(Snap(S, link), sentinel, xs, n - 1);
        visited := visited + [ep];
        ep := ep.Prev(link);
        n := n - 1;
      }
    }

    /** The body of the loop below. */
    method MoveIf(dst: Head<D>, take: Element<D> -> bool, ep: Element<D>, ghost S: set<Element<D>>,
                  ghost h: Store<Element<D>>, ghost xs: seq<Element<D>>, ghost ys: seq<Element<D>>, ghost n: nat)
      requires dst.link == link && n < |xs| && ep == xs[n]
      requires Move.Midway(h, Snap(S, link), sentinel, dst.sentinel, xs, ys, n, take)
      modifies sentinel, dst.sentinel, xs, ys
      ensures Move.Midway(h, Snap(S, link), sentinel, dst.sentinel, xs, ys, n + 1, take)
      ensures Snap(S, Other(link)) == old(Snap(S, Other(link)))
    {
      ghost var g, t := Snap(S, link), dst.sentinel;
      Move.Current(h, g, sentinel, t, xs, ys, n, take);
      if take(ep) {
        ghost var k, m := Move.Take(h, g, sentinel, t, xs, ys, n, take);
        Remove(ep, link, S);
        InsertBefore(dst.sentinel, ep, link, S);
        assert Snap(S, link) == m;
      } else {
        Move.Skip(h, g, sentinel, t, xs, ys, n, take);
      }
    }

    /**
     * APR_RING_FOREACH_SAFE with a body that REMOVEs the current element when take holds of it and
     * INSERT_TAILs it on another ring. ep2 is read before the body runs.
     */
    method ForeachSafeMove(dst: Head<D>, take: Element<D> -> bool,
                           ghost S: set<Element<D>>, ghost xs: seq<Element<D>>, ghost ys: seq<Element<D>>)
      returns (visited: seq<Element<D>>)
      requires dst.link == link && Holds(S, xs) && dst.Holds(S, ys)
      requires Disjoint([sentinel] + xs, [dst.sentinel] + ys)
      modifies sentinel, dst.sentinel, xs, ys
      ensures visited == xs
      ensures Holds(S, Move.Filter(Move.Not(take), xs)) && dst.Holds(S, ys + Move.Filter(take, xs))
      ensures OnlyWithin(S, link, [sentinel] + xs + ([dst.sentinel] + ys))
    {
      ghost var h, t, n := Snap(S, link), dst.sentinel, 0;
      Move.Start(h, sentinel, t, xs, ys, take);
      Ends(S, xs);
      visited := [];
      var ep1 := First();
      var ep2 := ep1.Next(link);
      while ep1 != sentinel
        invariant 0 <= n <= |xs| && visited == xs[..n]
        invariant Move.Midway(h, Snap(S, link), sentinel, t, xs, ys, n, take)
        invariant Snap(S, Other(link)) == old(Snap(S, Other(link)))
        invariant ep1 == (xs + [sentinel])[n] && ep2 == ep1.Next(link)
        decreases |xs| - n
      {
        assert n < |xs| && ep1 == xs[n] && ep2 == (xs + [sentinel])[n + 1] by {
          Move.Current(h, Snap(S, link), sentinel, t, xs, ys, n, take);
        }
        Move.PrefixGrows(xs, n);
        visited := visited + [ep1];
        MoveIf(dst, take, ep1, S, h, xs, ys, n);
        ep1 := ep2;
        ep2 := ep1.Next(link);
        n := n + 1;
      }
      Move.Finish(h, Snap(S, link), sentinel, t, xs, ys, n, take);
    }
  }

  lemma {:induction false} ReverseAt<T>(xs: seq<T>, k: nat)
    requires k < |xs|
    ensures |Reverse(xs)| == |xs| && Reverse(xs)[k] == xs[|xs| - 1 - k]
  {
    var n := |xs| - 1;
    if n > 0 {
      ReverseAt(xs[..n], if k == 0 then 0 else k - 1);
    }
  }
}
