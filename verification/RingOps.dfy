/** What the ring macros of apr_ring.h do to a store, write by write and in source order. */
module RingOps {
  import opened Links

  /** APR_RING_ELEM_INIT, and APR_RING_INIT when x is the sentinel of a head. */
  ghost function ElemInit<T>(h: Store<T>, x: T): Store<T>
    requires x in h
  {
    SetPrev(SetNext(h, x, x), x, x)
  }

  ghost function SpliceBefore<T>(h: Store<T>, lep: T, ep1: T, epN: T): Store<T>
    requires lep in h && ep1 in h && epN in h && h[lep].prev in h
  {
    var h1 := SetNext(h, epN, lep);
    var h2 := SetPrev(h1, ep1, h1[lep].prev);
    var h3 := SetNext(h2, h2[lep].prev, ep1);
    SetPrev(h3, lep, epN)
  }

  ghost function SpliceAfter<T>(h: Store<T>, lep: T, ep1: T, epN: T): Store<T>
    requires lep in h && ep1 in h && epN in h && h[lep].next in h
  {
    var h1 := SetPrev(h, ep1, lep);
    var h2 := SetNext(h1, epN, h1[lep].next);
    var h3 := SetPrev(h2, h2[lep].next, epN);
    SetNext(h3, lep, ep1)
  }

  ghost function Unsplice<T>(h: Store<T>, ep1: T, epN: T): Store<T>
    requires ep1 in h && epN in h && h[ep1].prev in h && h[epN].next in h
  {
    var h1 := SetNext(h, h[ep1].prev, h[epN].next);
    SetPrev(h1, h1[epN].next, h1[ep1].prev)
  }

  ghost predicate Empty<T>(h: Store<T>, s: T)
    requires s in h
  {
    h[s].next == s
  }

  /** The single contract of splicing: chain ch goes in at position p of ring c, 1 <= p <= |c|. */
  ghost predicate CanSplice<T>(h: Store<T>, c: seq<T>, p: nat, ch: seq<T>) {
    Ring(h, c) && Chain(h, ch) && |ch| > 0 && Disjoint(c, ch) && 1 <= p <= |c|
  }

  /** The element that follows position p of ring c. */
  function At<T>(c: seq<T>, p: nat): T
    requires 1 <= p <= |c|
  {
    if p == |c| then c[0] else c[p]
  }

  lemma AtLinked<T>(h: Store<T>, c: seq<T>, p: nat)
    requires Ring(h, c) && 1 <= p <= |c|
    ensures Linked(h, c[p - 1], At(c, p))
  {
  }

  /** Splicing before the follower of a position and after its leader are the same operation. */
  lemma SpliceSidesAgree<T>(h: Store<T>, c: seq<T>, p: nat, ch: seq<T>)
    requires CanSplice(h, c, p, ch)
    ensures Linked(h, c[p - 1], At(c, p))
    ensures SpliceBefore(h, At(c, p), ch[0], Last(ch)) == SpliceAfter(h, c[p - 1], ch[0], Last(ch))
  {
    AtLinked(h, c, p);
    assert c[p - 1] in c && At(c, p) in c && ch[0] in ch && Last(ch) in ch;
  }

  /** Which pointers SPLICE_BEFORE writes: the outer two of the chain and the two that met at the gap. */
  lemma SpliceWrites<T>(h: Store<T>, p: T, ep1: T, epN: T, lep: T)
    requires Linked(h, p, lep) && ep1 in h && epN in h && ep1 != lep && epN != p
    ensures var k := SpliceBefore(h, lep, ep1, epN);
      && k.Keys == h.Keys && Linked(k, p, ep1) && Linked(k, epN, lep)
      && (forall x :: x in h && x != p && x != epN ==> k[x].next == h[x].next)
      && (forall x :: x in h && x != lep && x != ep1 ==> k[x].prev == h[x].prev)
  {
  }

  lemma SpliceRing<T>(h: Store<T>, c: seq<T>, p: nat, ch: seq<T>)
    requires CanSplice(h, c, p, ch)
    ensures Linked(h, c[p - 1], At(c, p))
    ensures Ring(SpliceBefore(h, At(c, p), ch[0], Last(ch)), c[..p] + ch + c[p..])
  {
    var lep, ep1, epN := At(c, p), ch[0], Last(ch);
    assert c[p - 1] in c && lep in c && ep1 in ch && epN in ch;
    SpliceWrites(h, c[p - 1], ep1, epN, lep);
    var k := SpliceBefore(h, lep, ep1, epN);
    ThreeChains(k, c[..p], ch, c[p..]);
  }

  /** Three chains joined end to end, with the last joined to the first, make a ring. */
  lemma ThreeChains<T>(k: Store<T>, a: seq<T>, m: seq<T>, b: seq<T>)
    requires Chain(k, a) && Chain(k, m) && Chain(k, b) && |a| > 0 && |m| > 0
    requires Disjoint(a, m) && Disjoint(a, b) && Disjoint(m, b)
    requires Linked(k, Last(a), m[0])
    requires if |b| > 0 then Linked(k, Last(m), b[0]) && Linked(k, Last(b), a[0]) else Linked(k, Last(m), a[0])
    ensures Ring(k, a + m + b)
  {
    ChainJoin(k, a, m);
    ChainJoin(k, a + m, b);
  }

  /** The single contract of SPLICE_BEFORE and SPLICE_AFTER, at every position of every ring. */
  lemma SpliceAnywhere<T>(h: Store<T>, c: seq<T>, p: nat, ch: seq<T>) returns (k: Store<T>)
    requires CanSplice(h, c, p, ch)
    ensures c[p - 1] in h && At(c, p) in h && ch[0] in h && Last(ch) in h
    ensures h[c[p - 1]].next in h && h[At(c, p)].prev in h
    ensures k == SpliceBefore(h, At(c, p), ch[0], Last(ch)) == SpliceAfter(h, c[p - 1], ch[0], Last(ch))
    ensures k.Keys == h.Keys && Ring(k, c[..p] + ch + c[p..])
    ensures forall x :: x in h && x !in c && x !in ch ==> k[x] == h[x]
  {
    SpliceRing(h, c, p, ch);
    SpliceSidesAgree(h, c, p, ch);
    k := SpliceBefore(h, At(c, p), ch[0], Last(ch));
  }

  /** Which pointers UNSPLICE writes: those of the run's two neighbours that led into the run. */
  lemma UnspliceWrites<T>(h: Store<T>, p: T, ep1: T, epN: T, n: T)
    requires Linked(h, p, ep1) && Linked(h, epN, n) && p != epN
    ensures var k := Unsplice(h, ep1, epN);
      && k.Keys == h.Keys && Linked(k, p, n)
      && (forall x :: x in h && x != p ==> k[x].next == h[x].next)
      && (forall x :: x in h && x != n ==> k[x].prev == h[x].prev)
  {
  }

  /** Taking out a run leaves the rest a ring, and the run itself keeps every pointer it had. */
  lemma UnspliceRing<T>(h: Store<T>, c: seq<T>, i: nat, j: nat)
    requires Ring(h, c) && 1 <= i < j <= |c|
    ensures Linked(h, c[i - 1], c[i]) && Linked(h, c[j - 1], At(c, j))
    ensures Ring(Unsplice(h, c[i], c[j - 1]), c[..i] + c[j..])
    ensures Chain(Unsplice(h, c[i], c[j - 1]), c[i..j])
    ensures forall x :: x in h && (x in c[i..j] || x !in c) ==> Unsplice(h, c[i], c[j - 1])[x] == h[x]
  {
    AtLinked(h, c, i);
    AtLinked(h, c, j);
    UnspliceWrites(h, c[i - 1], c[i], c[j - 1], At(c, j));
  }

  /** Undo: a run put back before the element its last pointer still names restores every pointer. */
  lemma UnspliceUndo<T>(h: Store<T>, ep1: T, epN: T)
    requires ep1 in h && epN in h && Linked(h, h[ep1].prev, ep1) && Linked(h, epN, h[epN].next)
    ensures var k := Unsplice(h, ep1, epN);
      && k[epN].next in k && k[k[epN].next].prev in k
      && SpliceBefore(k, k[epN].next, ep1, epN) == h
      && k[ep1].prev in k && k[k[ep1].prev].next in k
      && SpliceAfter(k, k[ep1].prev, ep1, epN) == h
  {
  }

  /** Taking a whole ring out of itself writes the pointers that are there already. */
  lemma UnspliceWhole<T>(h: Store<T>, c: seq<T>)
    requires Ring(h, c)
    ensures c[0] in h && Last(c) in h && Linked(h, Last(c), c[0])
    ensures Unsplice(h, c[0], Last(c)) == h
  {
  }

  /** REMOVE changes nothing exactly when the two elements that e names as its neighbours are linked already. */
  lemma RemoveIsHarmless<T>(h: Store<T>, e: T)
    requires e in h && h[e].prev in h && h[e].next in h
    ensures Unsplice(h, e, e) == h <==> Linked(h, h[e].prev, h[e].next)
  {
  }

  /** So removing a correctly linked element changes nothing exactly when it is its own neighbour. */
  lemma RemoveIsNoOp<T>(h: Store<T>, e: T)
    requires e in h && Linked(h, h[e].prev, e) && Linked(h, e, h[e].next)
    ensures Unsplice(h, e, e) == h <==> h[e].next == e
  {
    RemoveIsHarmless(h, e);
  }

  /** Those of the two stale pointers of e that lead into ring c meet there the neighbour that e names. */
  ghost predicate StillAdjacent<T>(h: Store<T>, c: seq<T>, e: T)
    requires e in h && h[e].prev in h && h[e].next in h
  {
    var p, n := h[e].prev, h[e].next;
    (p in c ==> h[p].next == n) && (n in c ==> h[n].prev == p)
  }

  /** REMOVE of an element that is not on ring c leaves c a ring exactly when its stale pointers are still adjacent there. */
  lemma RemoveOffRing<T>(h: Store<T>, c: seq<T>, e: T)
    requires Ring(h, c) && e in h && e !in c && h[e].prev in h && h[e].next in h
    ensures Ring(Unsplice(h, e, e), c) <==> StillAdjacent(h, c, e)
    ensures h[e].prev in c && h[e].next in c ==> (StillAdjacent(h, c, e) <==> h[h[e].prev].next == h[e].next)
  {
    var k, p, n := Unsplice(h, e, e), h[e].prev, h[e].next;
    assert k[p].next == n && k[n].prev == p;
    if Ring(k, c) {
      if p in c { RingCells(h, k, c, p); }
      if n in c { RingCells(h, k, c, n); }
    }
    if StillAdjacent(h, c, e) {
      RingFrame(h, k, c);
    }
    if p in c && n in c {
      var i :| 0 <= i < |c| && c[i] == p;
      var j :| 0 <= j < |c| && c[j] == n;
      AtLinked(h, c, i + 1);
      AtLinked(h, c, if j == 0 then |c| else j);
    }
  }

  lemma ElemInitRing<T>(h: Store<T>, x: T)
    requires x in h
    ensures Ring(ElemInit(h, x), [x])
  {
  }

  /** The pointers that CONCAT and PREPEND follow lead to entries. */
  ghost predicate HeadsReady<T>(h: Store<T>, s1: T, s2: T) {
    s1 in h && s2 in h && h[s1].next in h && h[s1].prev in h && h[s2].next in h && h[s2].prev in h
  }

  /** APR_RING_CONCAT. The macro repeats FIRST(h2) and LAST(h2), so they are read again at each write. */
  ghost function Concat<T>(h: Store<T>, s1: T, s2: T): Store<T>
    requires HeadsReady(h, s1, s2)
  {
    if Empty(h, s2) then h else
      var h1 := SetNext(h, h[s2].prev, s1);
      var h2 := SetPrev(h1, h1[s2].next, h1[s1].prev);
      var h3 := SetNext(h2, h2[s1].prev, h2[s2].next);
      var h4 := SetPrev(h3, s1, h3[s2].prev);
      ElemInit(h4, s2)
  }

  /** APR_RING_PREPEND, again with FIRST(h2) and LAST(h2) read at each write. */
  ghost function Prepend<T>(h: Store<T>, s1: T, s2: T): Store<T>
    requires HeadsReady(h, s1, s2)
  {
    if Empty(h, s2) then h else
      var h1 := SetPrev(h, h[s2].next, s1);
      var h2 := SetNext(h1, h1[s2].prev, h1[s1].next);
      var h3 := SetPrev(h2, h2[s1].next, h2[s2].prev);
      var h4 := SetNext(h3, s1, h3[s2].next);
      ElemInit(h4, s2)
  }

  /** Re-reading the head of h2 between the writes sees what it held before the first of them. */
  lemma ByNameIsByValue<T>(h: Store<T>, c1: seq<T>, c2: seq<T>)
    requires Ring(h, c1) && Ring(h, c2) && Disjoint(c1, c2) && |c2| > 1
    ensures HeadsReady(h, c1[0], c2[0]) && !Empty(h, c2[0])
    ensures h[c2[0]].next == c2[1] && h[c2[0]].prev == Last(c2)
    ensures Concat(h, c1[0], c2[0]) == ElemInit(SpliceBefore(h, c1[0], c2[1], Last(c2)), c2[0])
    ensures Prepend(h, c1[0], c2[0]) == ElemInit(SpliceAfter(h, c1[0], c2[1], Last(c2)), c2[0])
  {
    AtLinked(h, c1, 1);
    assert Linked(h, c2[0], c2[1]) && Linked(h, Last(c2), c2[0]) && Linked(h, Last(c1), c1[0]);
  }

  /** Making s2 its own neighbour does not disturb a ring that s2 is not on. */
  lemma ResetHead<T>(k: Store<T>, c: seq<T>, s2: T)
    requires Ring(k, c) && s2 in k && s2 !in c
    ensures Ring(ElemInit(k, s2), c) && Ring(ElemInit(k, s2), [s2])
  {
  }

  /** CONCAT appends and leaves the second ring empty; either ring may have been empty. */
  lemma ConcatRings<T>(h: Store<T>, c1: seq<T>, c2: seq<T>)
    requires Ring(h, c1) && Ring(h, c2) && Disjoint(c1, c2)
    ensures HeadsReady(h, c1[0], c2[0])
    ensures Ring(Concat(h, c1[0], c2[0]), c1 + c2[1..]) && Ring(Concat(h, c1[0], c2[0]), [c2[0]])
    ensures forall x :: x in h && x !in c1 && x !in c2 ==> Concat(h, c1[0], c2[0])[x] == h[x]
  {
    AtLinked(h, c1, 1);
    if |c2| == 1 {
      assert c1 + c2[1..] == c1 && c2 == [c2[0]];
    } else {
      ByNameIsByValue(h, c1, c2);
      TailIsChain(h, c1, c2);
      var k := SpliceAnywhere(h, c1, |c1|, c2[1..]);
      assert c1[..|c1|] + c2[1..] + c1[|c1|..] == c1 + c2[1..];
      ResetHead(k, c1 + c2[1..], c2[0]);
    }
  }

  /** PREPEND puts the second ring in front and leaves it empty; either ring may have been empty. */
  lemma PrependRings<T>(h: Store<T>, c1: seq<T>, c2: seq<T>)
    requires Ring(h, c1) && Ring(h, c2) && Disjoint(c1, c2)
    ensures HeadsReady(h, c1[0], c2[0])
    ensures Ring(Prepend(h, c1[0], c2[0]), c1[..1] + c2[1..] + c1[1..])
    ensures Ring(Prepend(h, c1[0], c2[0]), [c2[0]])
    ensures forall x :: x in h && x !in c1 && x !in c2 ==> Prepend(h, c1[0], c2[0])[x] == h[x]
  {
    AtLinked(h, c1, 1);
    if |c2| == 1 {
      assert c1[..1] + c2[1..] + c1[1..] == c1 && c2 == [c2[0]];
    } else {
      ByNameIsByValue(h, c1, c2);
      TailIsChain(h, c1, c2);
      var k := SpliceAnywhere(h, c1, 1, c2[1..]);
      ResetHead(k, c1[..1] + c2[1..] + c1[1..], c2[0]);
    }
  }

  lemma TailIsChain<T>(h: Store<T>, c1: seq<T>, c2: seq<T>)
    requires Ring(h, c1) && Ring(h, c2) && Disjoint(c1, c2) && |c2| > 1
    ensures var ys := c2[1..];
      && Chain(h, ys) && |ys| > 0 && ys[0] == c2[1] && Last(ys) == Last(c2)
      && c2[0] !in ys && c2[0] !in c1 && Disjoint(c1, ys) && forall y :: y in ys ==> y in c2
  {
  }

  // ---- rings that have a head: sentinel s first, then the elements ----

  lemma HeadThenRest<T>(s: T, xs: seq<T>, ys: seq<T>)
    ensures ([s] + xs)[1..] == xs && ([s] + xs)[..1] + ys + xs == [s] + (ys + xs) && [s] + [] == [s]
  {
  }

  lemma SpliceAtHead<T>(h: Store<T>, s: T, xs: seq<T>, ch: seq<T>) returns (k: Store<T>)
    requires Ring(h, [s] + xs) && Chain(h, ch) && |ch| > 0 && Disjoint([s] + xs, ch)
    ensures s in h && ch[0] in h && Last(ch) in h && h[s].next in h
    ensures k == SpliceAfter(h, s, ch[0], Last(ch)) && Ring(k, [s] + (ch + xs))
    ensures forall x :: x in h && x !in [s] + xs + ch ==> k[x] == h[x]
  {
    var c := [s] + xs;
    HeadThenRest(s, xs, ch);
    k := SpliceAnywhere(h, c, 1, ch);
  }

  lemma SpliceAtTail<T>(h: Store<T>, s: T, xs: seq<T>, ch: seq<T>) returns (k: Store<T>)
    requires Ring(h, [s] + xs) && Chain(h, ch) && |ch| > 0 && Disjoint([s] + xs, ch)
    ensures s in h && ch[0] in h && Last(ch) in h && h[s].prev in h
    ensures k == SpliceBefore(h, s, ch[0], Last(ch)) && Ring(k, [s] + (xs + ch))
    ensures forall x :: x in h && x !in [s] + xs + ch ==> k[x] == h[x]
  {
    var c := [s] + xs;
    k := SpliceAnywhere(h, c, |c|, ch);
    assert c[..|c|] + ch + c[|c|..] == [s] + (xs + ch);
  }

  lemma ConcatHeads<T>(h: Store<T>, s1: T, xs: seq<T>, s2: T, ys: seq<T>)
    requires Ring(h, [s1] + xs) && Ring(h, [s2] + ys) && Disjoint([s1] + xs, [s2] + ys)
    ensures HeadsReady(h, s1, s2)
    ensures Ring(Concat(h, s1, s2), [s1] + (xs + ys)) && Ring(Concat(h, s1, s2), [s2] + [])
    ensures forall x :: x in h && x !in [s1] + xs + ([s2] + ys) ==> Concat(h, s1, s2)[x] == h[x]
  {
    var c1, c2 := [s1] + xs, [s2] + ys;
    ConcatRings(h, c1, c2);
    assert c1 + c2[1..] == [s1] + (xs + ys) && [s2] == [s2] + [];
  }

  lemma PrependHeads<T>(h: Store<T>, s1: T, xs: seq<T>, s2: T, ys: seq<T>)
    requires Ring(h, [s1] + xs) && Ring(h, [s2] + ys) && Disjoint([s1] + xs, [s2] + ys)
    ensures HeadsReady(h, s1, s2)
    ensures Ring(Prepend(h, s1, s2), [s1] + (ys + xs)) && Ring(Prepend(h, s1, s2), [s2] + [])
    ensures forall x :: x in h && x !in [s1] + xs + ([s2] + ys) ==> Prepend(h, s1, s2)[x] == h[x]
  {
    var c1, c2 := [s1] + xs, [s2] + ys;
    PrependRings(h, c1, c2);
    HeadThenRest(s1, xs, ys);
    HeadThenRest(s2, ys, []);
  }

  /** Stepping forwards and backwards over the elements: past the last one lies the sentinel, and before the first. */
  lemma HeadNeighbours<T>(h: Store<T>, s: T, xs: seq<T>, n: nat)
    requires Ring(h, [s] + xs) && n < |xs|
    ensures xs[n] in h && xs[n] != s
    ensures h[xs[n]].next == (xs + [s])[n + 1] && h[xs[n]].prev == ([s] + xs)[n]
  {
    var c := [s] + xs;
    AtLinked(h, c, n + 2);
  }

  /** REMOVE of the element between a and b. */
  lemma RemoveFromHead<T>(h: Store<T>, s: T, a: seq<T>, e: T, b: seq<T>) returns (k: Store<T>)
    requires Ring(h, [s] + (a + [e] + b))
    ensures e in h && e !in [s] + (a + b)
    ensures h[e].prev == ([s] + a)[|a|] && h[e].next == (b + [s])[0] && h[e].prev in h && h[e].next in h
    ensures k == Unsplice(h, e, e) && k.Keys == h.Keys && Ring(k, [s] + (a + b)) && k[e] == h[e]
    ensures forall x :: x in h && x !in [s] + (a + b) ==> k[x] == h[x]
  {
    var c, i := [s] + (a + [e] + b), |a| + 1;
    UnspliceRing(h, c, i, i + 1);
    assert c[..i] + c[i + 1..] == [s] + (a + b);
    k := Unsplice(h, e, e);
  }

  /** REMOVE of the element at any position, the first and the only one included. */
  lemma RemoveAt<T>(h: Store<T>, c: seq<T>, i: nat) returns (k: Store<T>)
    requires Ring(h, c) && i < |c|
    ensures c[i] in h && Linked(h, h[c[i]].prev, c[i]) && Linked(h, c[i], h[c[i]].next)
    ensures h[c[i]].prev in c && h[c[i]].next in c
    ensures k == Unsplice(h, c[i], c[i]) && k.Keys == h.Keys
    ensures |c| == 1 ==> k == h
    ensures |c| > 1 ==> Ring(k, c[..i] + c[i + 1..])
    ensures forall x :: x in h && (x !in c || x == c[i]) ==> k[x] == h[x]
  {
    AtLinked(h, c, i + 1);
    AtLinked(h, c, if i == 0 then |c| else i);
    k := Unsplice(h, c[i], c[i]);
    if i > 0 {
      UnspliceRing(h, c, i, i + 1);
    } else if |c| > 1 {
      TurnAndRemove(h, c);
    }
  }

  /** The ring is turned so that its first element comes last. */
  lemma TurnAndRemove<T>(h: Store<T>, c: seq<T>)
    requires Ring(h, c) && |c| > 1
    ensures c[0] in h && h[c[0]].prev in h && h[c[0]].next in h
    ensures Ring(Unsplice(h, c[0], c[0]), c[..0] + c[1..])
  {
    RingRotate(h, c, 1);
    var d := c[1..] + c[..1];
    UnspliceRing(h, d, |c| - 1, |c|);
    assert d[..|c| - 1] + d[|c|..] == c[1..] == c[..0] + c[1..] && d[|c| - 1] == c[0];
  }

  /** REMOVE seen from any ring c, whether e is on it or not. */
  lemma RemoveAnyhow<T>(h: Store<T>, c: seq<T>, e: T) returns (k: Store<T>)
    requires Ring(h, c) && e in h && h[e].prev in h && h[e].next in h
    ensures k == Unsplice(h, e, e)
    ensures forall i :: 0 <= i < |c| && c[i] == e && |c| > 1 ==> Ring(k, c[..i] + c[i + 1..])
    ensures e in c ==> (|c| == 1 ==> k == h) && forall x :: x in h && x !in c ==> k[x] == h[x]
    ensures e !in c ==> (Ring(k, c) <==> StillAdjacent(h, c, e))
    ensures Linked(h, h[e].prev, h[e].next) ==> k == h
  {
    k := Unsplice(h, e, e);
    RemoveIsHarmless(h, e);
    if e in c {
      var i :| 0 <= i < |c| && c[i] == e;
      var k' := RemoveAt(h, c, i);
    } else {
      RemoveOffRing(h, c, e);
    }
  }

  lemma FirstInPlace<T>(h: Store<T>, s: T, xs: seq<T>)
    requires Ring(h, [s] + xs) && |xs| > 0
    ensures xs[0] in h && h[xs[0]].prev == s && s in h && h[xs[0]].next in [s] + xs && h[xs[0]].next in h
  {
    HeadNeighbours(h, s, xs, 0);
  }

  lemma TailSlices<T>(s: T, xs: seq<T>, i: nat)
    requires i < |xs|
    ensures var c := [s] + xs;
      && c[..i + 1] + c[|c|..] == c[..i + 1] == [s] + xs[..i] && c[i + 1..|c|] == xs[i..]
      && c[i + 1] == xs[i] && c[i] in c
  {
  }

  /** UNSPLICE of everything from position i to the end of a headed ring. */
  lemma UnspliceTail<T>(h: Store<T>, s: T, xs: seq<T>, i: nat) returns (k: Store<T>)
    requires Ring(h, [s] + xs) && i < |xs|
    ensures s in h && xs[i] in h && Last(xs) in h && h[s].prev == Last(xs) && h[Last(xs)].next == s
    ensures h[xs[i]].prev in h && h[xs[i]].prev in [s] + xs && k == Unsplice(h, xs[i], Last(xs)) && k.Keys == h.Keys
    ensures Ring(k, [s] + xs[..i]) && Chain(k, xs[i..]) && Disjoint([s] + xs[..i], xs[i..])
    ensures forall x :: x in h && x !in [s] + xs ==> k[x] == h[x]
  {
    TailSlices(s, xs, i);
    k := Unsplice(h, xs[i], Last(xs));
  }

  /** That tail then spliced in at the head of an empty ring. */
  lemma MoveTail<T>(h: Store<T>, s: T, xs: seq<T>, i: nat, t: T) returns (k: Store<T>, m: Store<T>)
    requires Ring(h, [s] + xs) && i < |xs| && Ring(h, [t]) && t !in [s] + xs
    ensures s in h && xs[i] in h && Last(xs) in h && h[s].prev == Last(xs) && h[Last(xs)].next == s
    ensures h[xs[i]].prev in h && h[xs[i]].prev in [s] + xs && k == Unsplice(h, xs[i], Last(xs))
    ensures t in k && k[t].next == t && xs[i] in k && Last(xs) in k
    ensures m == SpliceAfter(k, t, xs[i], Last(xs)) && m.Keys == h.Keys
    ensures Ring(m, [s] + xs[..i]) && Ring(m, [t] + xs[i..]) && Disjoint([s] + xs[..i], [t] + xs[i..])
    ensures forall x :: x in h && x !in [s] + xs + [t] ==> m[x] == h[x]
  {
    k := UnspliceTail(h, s, xs, i);
    assert [t] + [] == [t] && xs[i..] + [] == xs[i..] && Last(xs[i..]) == Last(xs);
    assert forall x :: x in xs[i..] || x in xs[..i] ==> x in xs;
    m := SpliceAtHead(k, t, [], xs[i..]);
    RingFrame(k, m, [s] + xs[..i]);
  }

  /** Two memories that agree outside a ring and an empty head, and both have those, are the same. */
  lemma SameRingsSameStore<T>(h: Store<T>, k: Store<T>, s: T, xs: seq<T>, t: T)
    requires Ring(h, [s] + xs) && Ring(k, [s] + xs) && Ring(h, [t]) && Ring(k, [t]) && k.Keys == h.Keys
    requires forall x :: x in h && x !in [s] + xs + [t] ==> k[x] == h[x]
    ensures k == h
  {
    forall x | x in h
      ensures k[x] == h[x]
    {
      if x in [s] + xs {
        RingCells(h, k, [s] + xs, x);
      }
    }
  }
}
