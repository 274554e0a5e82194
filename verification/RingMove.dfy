/** Moving selected elements of one ring to the end of another while walking over the first. */
module RingMove {
  import opened Links
  import Ops = RingOps

  function Not<T>(p: T -> bool): T -> bool {
    x => !p(x)
  }

  /** The elements of xs for which p holds, in order. */
  function Filter<T>(p: T -> bool, xs: seq<T>): seq<T> {
    if |xs| == 0 then []
    else Filter(p, xs[..|xs| - 1]) + (if p(Last(xs)) then [Last(xs)] else [])
  }

  lemma {:induction false} FilterMembers<T>(p: T -> bool, xs: seq<T>, x: T)
    ensures x in Filter(p, xs) <==> x in xs && p(x)
  {
    if |xs| > 0 {
      FilterMembers(p, xs[..|xs| - 1], x);
    }
  }

  /** Stability: the selected elements of a prefix come first. */
  lemma {:induction false} FilterConcat<T>(p: T -> bool, xs: seq<T>, ys: seq<T>)
    ensures Filter(p, xs + ys) == Filter(p, xs) + Filter(p, ys)
  {
    if |ys| > 0 {
      FilterConcat(p, xs, ys[..|ys| - 1]);
      LastApart(xs, ys);
    } else {
      assert xs + ys == xs;
    }
  }

  /** The two halves of a partition hold every element exactly as often as the whole did. */
  lemma {:induction false} FilterPartitions<T>(p: T -> bool, xs: seq<T>)
    ensures multiset(Filter(p, xs)) + multiset(Filter(Not(p), xs)) == multiset(xs)
  {
    if |xs| > 0 {
      FilterPartitions(p, xs[..|xs| - 1]);
      assert xs == xs[..|xs| - 1] + [Last(xs)];
    }
  }

  ghost function Source<T>(s: T, xs: seq<T>, n: nat, take: T -> bool): seq<T>
    requires n <= |xs|
  {
    [s] + (Filter(Not(take), xs[..n]) + xs[n..])
  }

  ghost function Target<T>(t: T, xs: seq<T>, ys: seq<T>, n: nat, take: T -> bool): seq<T>
    requires n <= |xs|
  {
    [t] + (ys + Filter(take, xs[..n]))
  }

  ghost function Everyone<T>(s: T, t: T, xs: seq<T>, ys: seq<T>): seq<T> {
    [s] + xs + ([t] + ys)
  }

  /** The loop has dealt with the first n elements: h0 was the memory before, h is it now. */
  ghost predicate Midway<T>(h0: Store<T>, h: Store<T>, s: T, t: T, xs: seq<T>, ys: seq<T>, n: nat, take: T -> bool) {
    && n <= |xs| && h.Keys == h0.Keys
    && Ring(h, Source(s, xs, n, take)) && Ring(h, Target(t, xs, ys, n, take))
    && Disjoint(Source(s, xs, n, take), Target(t, xs, ys, n, take))
    && forall x :: x in h0 && x !in Everyone(s, t, xs, ys) ==> h[x] == h0[x]
  }

  lemma Start<T>(h: Store<T>, s: T, t: T, xs: seq<T>, ys: seq<T>, take: T -> bool)
    requires Ring(h, [s] + xs) && Ring(h, [t] + ys) && Disjoint([s] + xs, [t] + ys)
    ensures Midway(h, h, s, t, xs, ys, 0, take)
  {
    assert Source(s, xs, 0, take) == [s] + xs && Target(t, xs, ys, 0, take) == [t] + ys;
  }

  lemma Finish<T>(h0: Store<T>, h: Store<T>, s: T, t: T, xs: seq<T>, ys: seq<T>, n: nat, take: T -> bool)
    requires n <= |xs| && Midway(h0, h, s, t, xs, ys, n, take) && (xs + [s])[n] == s
    requires Ring(h0, [s] + xs)
    ensures n == |xs| && xs[..n] == xs
    ensures Ring(h, [s] + Filter(Not(take), xs)) && Ring(h, [t] + (ys + Filter(take, xs)))
    ensures forall x :: x in h0 && x !in [s] + xs + ([t] + ys) ==> h[x] == h0[x]
  {
    if n < |xs| {
      Ops.HeadNeighbours(h0, s, xs, n);
    }
    assert xs[..n] == xs && Filter(Not(take), xs) + xs[n..] == Filter(Not(take), xs);
  }

  lemma PrefixGrows<T>(xs: seq<T>, n: nat)
    requires n < |xs|
    ensures xs[..n + 1] == xs[..n] + [xs[n]]
  {
  }

  lemma FilterOneMore<T>(p: T -> bool, xs: seq<T>, n: nat)
    requires n < |xs|
    ensures Filter(p, xs[..n + 1]) == Filter(p, xs[..n]) + (if p(xs[n]) then [xs[n]] else [])
  {
    assert xs[..n + 1][..n] == xs[..n];
  }

  /** The element next in line, as the walk finds it. */
  lemma Current<T>(h0: Store<T>, h: Store<T>, s: T, t: T, xs: seq<T>, ys: seq<T>, n: nat, take: T -> bool)
    requires Midway(h0, h, s, t, xs, ys, n, take) && n < |xs|
    ensures xs[n] in h && xs[n] != s && h[xs[n]].next == (xs + [s])[n + 1]
    ensures h[xs[n]].prev in h && h[xs[n]].prev in [s] + xs && h[xs[n]].next in h
  {
    var a := Filter(Not(take), xs[..n]);
    Ops.HeadNeighbours(h, s, a + xs[n..], |a|);
    NoStrangers(s, t, xs, ys, n, take);
  }

  lemma SkipOne<T>(s: T, t: T, xs: seq<T>, ys: seq<T>, n: nat, take: T -> bool)
    requires n < |xs| && !take(xs[n])
    ensures Source(s, xs, n + 1, take) == Source(s, xs, n, take)
    ensures Target(t, xs, ys, n + 1, take) == Target(t, xs, ys, n, take)
  {
    FilterOneMore(Not(take), xs, n);
    FilterOneMore(take, xs, n);
    assert Source(s, xs, n + 1, take) == Source(s, xs, n, take);
    assert Target(t, xs, ys, n + 1, take) == Target(t, xs, ys, n, take);
  }

  lemma Skip<T>(h0: Store<T>, h: Store<T>, s: T, t: T, xs: seq<T>, ys: seq<T>, n: nat, take: T -> bool)
    requires Midway(h0, h, s, t, xs, ys, n, take) && n < |xs| && !take(xs[n])
    ensures Midway(h0, h, s, t, xs, ys, n + 1, take)
  {
    SkipOne(s, t, xs, ys, n, take);
  }

  lemma OthersWithin<T>(s: T, a: seq<T>, e: T, b: seq<T>)
    ensures e in [s] + (a + [e] + b) && forall x :: x in [s] + (a + b) ==> x in [s] + (a + [e] + b)
  {
    assert ([s] + (a + [e] + b))[|a| + 1] == e;
  }

  /** REMOVE of e between a and b, then INSERT_BEFORE the sentinel t of the other ring. */
  lemma MoveOne<T>(h: Store<T>, s: T, a: seq<T>, e: T, b: seq<T>, t: T, zs: seq<T>) returns (k: Store<T>, m: Store<T>)
    requires Ring(h, [s] + (a + [e] + b)) && Ring(h, [t] + zs) && Disjoint([s] + (a + [e] + b), [t] + zs)
    ensures e in h && t in h && h[e].prev in h && h[e].next in h && k == Ops.Unsplice(h, e, e)
    ensures t in k && e in k && k[t].prev in k && k[t].prev == h[t].prev && k[t].prev in [t] + zs
    ensures m == Ops.SpliceBefore(k, t, e, e) && m.Keys == h.Keys
    ensures Ring(m, [s] + (a + b)) && Ring(m, [t] + (zs + [e])) && Disjoint([s] + (a + b), [t] + (zs + [e]))
    ensures forall x :: x in h && x !in [s] + (a + [e] + b) && x !in [t] + zs ==> m[x] == h[x]
  {
    var c, c', d := [s] + (a + [e] + b), [s] + (a + b), [t] + zs;
    k := Ops.RemoveFromHead(h, s, a, e, b);
    OthersWithin(s, a, e, b);
    RingFrame(h, k, d);
    assert d[0] == t && d[|d| - 1] in d && t in d;
    m := Ops.SpliceAtTail(k, t, zs, [e]);
  }

  lemma NoStrangers<T>(s: T, t: T, xs: seq<T>, ys: seq<T>, n: nat, take: T -> bool)
    requires n <= |xs|
    ensures forall x :: x in Source(s, xs, n, take) ==> x in [s] + xs
    ensures forall x :: x in Target(t, xs, ys, n, take) ==> x in [t] + ys + xs
  {
    forall x | x in Source(s, xs, n, take)
      ensures x in [s] + xs
    {
      FilterMembers(Not(take), xs[..n], x);
    }
    forall x | x in Target(t, xs, ys, n, take)
      ensures x in [t] + ys + xs
    {
      FilterMembers(take, xs[..n], x);
    }
  }

  lemma OneMore<T>(s: T, t: T, xs: seq<T>, ys: seq<T>, n: nat, take: T -> bool)
    requires n < |xs| && take(xs[n])
    ensures var a, zs := Filter(Not(take), xs[..n]), ys + Filter(take, xs[..n]);
      && Source(s, xs, n, take) == [s] + (a + [xs[n]] + xs[n + 1..])
      && Source(s, xs, n + 1, take) == [s] + (a + xs[n + 1..])
      && Target(t, xs, ys, n, take) == [t] + zs
      && Target(t, xs, ys, n + 1, take) == [t] + (zs + [xs[n]])
  {
    FilterOneMore(Not(take), xs, n);
    FilterOneMore(take, xs, n);
  }

  lemma Take<T>(h0: Store<T>, h: Store<T>, s: T, t: T, xs: seq<T>, ys: seq<T>, n: nat, take: T -> bool)
    returns (k: Store<T>, m: Store<T>)
    requires Midway(h0, h, s, t, xs, ys, n, take) && n < |xs| && take(xs[n])
    ensures var e := xs[n];
      && e in h && t in h && h[e].prev in h && h[e].next in h && k == Ops.Unsplice(h, e, e)
      && t in k && e in k && k[t].prev in k && k[t].prev in [t] + ys + xs
      && m == Ops.SpliceBefore(k, t, e, e)
      && Midway(h0, m, s, t, xs, ys, n + 1, take)
  {
    OneMore(s, t, xs, ys, n, take);
    NoStrangers(s, t, xs, ys, n, take);
    k, m := MoveOne(h, s, Filter(Not(take), xs[..n]), xs[n], xs[n + 1..], t, ys + Filter(take, xs[..n]));
  }
}
