/**
 * Three kinds of call that the macros do not guard against, and exactly when each goes wrong: joining
 * a ring with itself, REMOVE with an argument that reads a pointer, and removing an element twice.
 */
module RingMisuse {
  import opened Links
  import Ops = RingOps
  import Check = RingCheck

  lemma SelfJoinWrites<T>(h: Store<T>, s: T, first: T, last: T)
    requires Linked(h, s, first) && Linked(h, last, s) && first != s && last != s
    ensures Ops.HeadsReady(h, s, s)
    ensures var k := Ops.Concat(h, s, s);
      && k == Ops.Prepend(h, s, s) && k.Keys == h.Keys && Linked(k, last, first) && k[s] == Cell(s, s)
      && (forall x :: x in h && x != s && x != last ==> k[x].next == h[x].next)
      && (forall x :: x in h && x != s && x != first ==> k[x].prev == h[x].prev)
  {
  }

  /**
   * A ring concatenated onto itself, or prepended to itself. The head comes out empty, as promised of
   * h2, but the elements are a cycle that no head leads to any more, instead of being on h1. It is
   * what it should be if and only if the ring was empty.
   */
  lemma SelfJoinDetaches<T>(h: Store<T>, s: T, xs: seq<T>)
    requires Ring(h, [s] + xs)
    ensures Ops.HeadsReady(h, s, s) && Ops.Concat(h, s, s) == Ops.Prepend(h, s, s)
    ensures Ring(Ops.Concat(h, s, s), [s])
    ensures |xs| > 0 ==> Ring(Ops.Concat(h, s, s), xs)
    ensures Ring(Ops.Concat(h, s, s), [s] + xs) <==> xs == []
  {
    var c := [s] + xs;
    Ops.AtLinked(h, c, 1);
    if |xs| > 0 {
      SelfJoinWrites(h, s, xs[0], Last(xs));
      ChainSlice(h, c, 1, |c|);
      assert c[1..|c|] == xs && c[1..] == xs && s in c[..1];
      ChainFrame(h, Ops.Concat(h, s, s), xs);
      assert Ops.Concat(h, s, s)[s].next == s && c[0] != c[1];
    }
  }

  ghost predicate CanRemoveFirstByName<T>(h: Store<T>, s: T) {
    && s in h && h[s].next in h && h[h[s].next].prev in h && h[h[s].next].next in h
    && (var h1 := SetNext(h, h[h[s].next].prev, h[h[s].next].next);
        h1[s].next in h1 && h1[h1[s].next].next in h1)
  }

  /**
   * APR_RING_REMOVE(APR_RING_FIRST(h), link) as the preprocessor expands it: the argument is read anew
   * each time. With an element for s it is APR_RING_REMOVE(APR_RING_NEXT(s, link), link).
   */
  ghost function RemoveFirstByName<T>(h: Store<T>, s: T): Store<T>
    requires CanRemoveFirstByName(h, s)
  {
    var h1 := SetNext(h, h[h[s].next].prev, h[h[s].next].next);
    SetPrev(h1, h1[h1[s].next].next, h1[h1[s].next].prev)
  }

  /**
   * What is left in memory: the sentinel skips the first element as it should, but the second write
   * lands one element too far on, where it makes the element after n name the removed one as its neighbour.
   */
  lemma RemoveFirstLeaves<T>(h: Store<T>, s: T, xs: seq<T>)
    requires Ring(h, [s] + xs) && |xs| > 0
    ensures CanRemoveFirstByName(h, s)
    ensures var n := (xs + [s])[1];
      var m := if |xs| == 1 then s else (xs + [s])[2];
      && s in h && m in SetNext(h, s, n)
      && RemoveFirstByName(h, s) == SetPrev(SetNext(h, s, n), m, xs[0])
  {
    Ops.HeadNeighbours(h, s, xs, 0);
    if |xs| > 1 {
      Ops.HeadNeighbours(h, s, xs, 1);
    }
    Ops.AtLinked(h, [s] + xs, 1);
    Ops.AtLinked(h, [s] + xs, |xs| + 1);
  }

  /**
   * Written that way the removal leaves a consistent ring if and only if there was nothing to remove.
   * The bucket macros that insert copy their arguments first; APR_BUCKET_REMOVE does not.
   */
  lemma RemoveFirstNeedsCopy<T>(h: Store<T>, s: T, xs: seq<T>)
    requires Ring(h, [s] + xs)
    ensures CanRemoveFirstByName(h, s)
    ensures Check.Walk(RemoveFirstByName(h, s), [s]).Passed? <==> xs == []
  {
    if |xs| > 0 {
      Ops.HeadNeighbours(h, s, xs, 0);
    }
    if |xs| > 1 {
      Ops.HeadNeighbours(h, s, xs, 1);
    }
  }

  ghost predicate CanRemoveLastByName<T>(h: Store<T>, s: T) {
    s in h && h[s].prev in h && h[h[s].prev].prev in h && h[h[s].prev].next in h
  }

  /** APR_RING_REMOVE(APR_RING_LAST(h), link) expanded, and APR_RING_REMOVE(APR_RING_PREV(s, link), link). */
  ghost function RemoveLastByName<T>(h: Store<T>, s: T): Store<T>
    requires CanRemoveLastByName(h, s)
  {
    var h1 := SetNext(h, h[h[s].prev].prev, h[h[s].prev].next);
    SetPrev(h1, h1[h1[s].prev].next, h1[h1[s].prev].prev)
  }

  /** LAST and PREV need no copy, on any memory: the one write made before they are read again is to a next pointer. */
  lemma RemoveLastNeedsNoCopy<T>(h: Store<T>, s: T)
    requires CanRemoveLastByName(h, s)
    ensures RemoveLastByName(h, s) == Ops.Unsplice(h, h[s].prev, h[s].prev)
  {
  }

  /** The writes of REMOVE(e), INSERT_BEFORE of x where e had been, and REMOVE(e) once more. */
  lemma RemoveAgainWrites<T>(h: Store<T>, p: T, e: T, n: T, x: T)
    requires Linked(h, p, e) && Linked(h, e, n) && x in h && e != p && e != n && x != p && x != e && x != n
    ensures var h1 := Ops.Unsplice(h, e, e);
      && h1[e] == h[e] && Linked(h1, p, n)
      && (var h2 := Ops.SpliceBefore(h1, n, x, x);
          && h2[e] == h[e]
          && Ops.Unsplice(h2, e, e) == h1[x := Cell(n, p)])
  {
  }

  /**
   * An element removed twice: after e = c[i] was removed and x inserted where it had been, removing e
   * again takes x off the ring, and the check from x fails. What decides is RingOps.RemoveOffRing.
   */
  lemma RemoveAgainDrops<T>(h: Store<T>, c: seq<T>, i: nat, x: T)
    returns (h1: Store<T>, h2: Store<T>, h3: Store<T>)
    requires Ring(h, c) && 1 <= i < |c| && x in h && x !in c
    ensures var e, rest := c[i], c[..i] + c[i + 1..];
      && e in h && h[e].prev in h && h[e].next in h && h1 == Ops.Unsplice(h, e, e) && Ring(h1, rest)
      && e in h1 && x in h1 && h1[e].next in h1 && h1[h1[e].next].prev in h1
      && h2 == Ops.SpliceBefore(h1, h1[e].next, x, x) && Ring(h2, c[..i] + [x] + c[i + 1..])
      && e in h2 && h2[e].prev in h2 && h2[e].next in h2 && h3 == Ops.Unsplice(h2, e, e) && Ring(h3, rest)
      && x in h3 && Check.Walk(h3, [x]) == Check.NextPrevFailed(x)
  {
    var e, p, n, rest := c[i], c[i - 1], Ops.At(c, i + 1), c[..i] + c[i + 1..];
    Ops.AtLinked(h, c, i);
    Ops.AtLinked(h, c, i + 1);
    RemoveAgainWrites(h, p, e, n, x);
    h1 := Ops.RemoveAt(h, c, i);
    h2 := ReinsertAt(h1, c, i, x);
    h3 := h1[x := Cell(n, p)];
    RingFrame(h1, h3, rest);
  }

  lemma ReinsertAt<T>(h1: Store<T>, c: seq<T>, i: nat, x: T) returns (h2: Store<T>)
    requires 1 <= i < |c| && Ring(h1, c[..i] + c[i + 1..]) && x in h1 && x !in c
    ensures var n := Ops.At(c, i + 1);
      n in h1 && h1[n].prev in h1 && h2 == Ops.SpliceBefore(h1, n, x, x) && Ring(h2, c[..i] + [x] + c[i + 1..])
  {
    var rest := c[..i] + c[i + 1..];
    h2 := Ops.SpliceAnywhere(h1, rest, i, [x]);
    assert rest[..i] == c[..i] && rest[i..] == c[i + 1..];
  }
}
