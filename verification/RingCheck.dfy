/** APR_RING_CHECK_ELEM_CONSISTENCY: what the walk decides, on any memory whatever. */
module RingCheck {
  import opened Links

  /** How a walk ends. Wild: the walk follows a pointer that leads to no entry. */
  datatype Verdict<T> =
    | Passed(path: seq<T>)
    | NextPrevFailed(here: T)
    | PrevNextFailed(here: T)
    | Wild(here: T)

  /** The walk, having come along path; its last element is the macro's `here`, its first `start`. */
  ghost function Walk<T>(h: Store<T>, path: seq<T>): (v: Verdict<T>)
    requires |path| > 0 && Chain(h, path)
    ensures v.Passed? ==> Ring(h, v.path) && v.path[0] == path[0]
    decreases |h.Keys| - |path|
  {
    Progress(h, path);
    var here := Last(path);
    var next, prev := h[here].next, h[here].prev;
    if next !in h then Wild(here)
    else if h[next].prev != here then NextPrevFailed(here)
    else if prev !in h then Wild(here)
    else if h[prev].next != here then PrevNextFailed(here)
    else if next == path[0] then Passed(path)
    else Walk(h, path + [next])
  }

  /** Why the walk ends: a step whose check passed reaches the start or an element not seen before. */
  lemma Progress<T>(h: Store<T>, path: seq<T>)
    requires |path| > 0 && Chain(h, path)
    ensures |path| <= |h.Keys|
    ensures var next := h[Last(path)].next;
      next in h && h[next].prev == Last(path) && next != path[0] ==>
        Chain(h, path + [next]) && |path| + 1 <= |h.Keys|
  {
    var here := Last(path);
    var next := h[here].next;
    DistinctFits(path, h.Keys);
    if next in h && h[next].prev == here && next != path[0] {
      forall x | x in path
        ensures x != next
      {
        var i :| 0 <= i < |path| && path[i] == x;
        if i > 0 {
          assert Linked(h, path[i - 1], path[i]);
        }
      }
      ChainJoin(h, path, [next]);
      DistinctFits(path + [next], h.Keys);
    }
  }

  /** On a ring the walk goes all the way round, wherever on it the walk is. */
  lemma {:induction false} WalkRing<T>(h: Store<T>, c: seq<T>, n: nat)
    requires Ring(h, c) && 1 <= n <= |c|
    ensures Chain(h, c[..n]) && Walk(h, c[..n]) == Passed(c)
    decreases |c| - n
  {
    ChainSlice(h, c, 0, n);
    var here := c[n - 1];
    if n > 1 {
      assert Linked(h, c[n - 2], here);
    }
    if n < |c| {
      assert c[..n] + [c[n]] == c[..n + 1];
      WalkRing(h, c, n + 1);
    }
  }

  /** The check passes if and only if the start lies on a proper ring, and then it has seen just that ring. */
  lemma CheckIsExact<T>(h: Store<T>, start: T)
    requires start in h
    ensures Walk(h, [start]).Passed? <==> exists c :: Ring(h, c) && c[0] == start
    ensures forall c :: Ring(h, c) && c[0] == start ==> Walk(h, [start]) == Passed(c)
  {
    forall c | Ring(h, c) && c[0] == start
      ensures Walk(h, [start]) == Passed(c)
    {
      WalkRing(h, c, 1);
      assert c[..1] == [start];
    }
  }

  /** Started anywhere on a ring the check passes. */
  lemma CheckPassesOnRing<T>(h: Store<T>, c: seq<T>, k: nat)
    requires Ring(h, c) && k < |c|
    ensures c[k] in h && Walk(h, [c[k]]) == Passed(c[k..] + c[..k])
  {
    RingRotate(h, c, k);
    CheckIsExact(h, c[k]);
  }

  /** Where pointers lead to entries the walk never goes wild. */
  lemma {:induction false} ClosedIsTame<T>(h: Store<T>, path: seq<T>)
    requires |path| > 0 && Chain(h, path) && Closed(h)
    ensures !Walk(h, path).Wild?
    decreases |h.Keys| - |path|
  {
    Progress(h, path);
    assert Tame(h, Last(path));
    var next := h[Last(path)].next;
    if h[next].prev == Last(path) && next != path[0] {
      ClosedIsTame(h, path + [next]);
    }
  }

  /** Every verdict but Passed names an element the walk came to, whose pointers are at fault as the verdict says. */
  lemma {:induction false} FaultIsReal<T>(h: Store<T>, path: seq<T>) returns (d: seq<T>)
    requires |path| > 0 && Chain(h, path)
    ensures |d| > 0 && Chain(h, d) && d[0] == path[0]
    ensures var v, at := Walk(h, path), Last(d);
      var next, prev := h[at].next, h[at].prev;
      && (v.NextPrevFailed? ==> v.here == at && next in h && h[next].prev != at)
      && (v.PrevNextFailed? ==> v.here == at && prev in h && h[prev].next != at)
      && (v.Wild? ==> v.here == at && (next !in h || prev !in h))
      && (v.Passed? ==> v.path == d)
    decreases |h.Keys| - |path|
  {
    Progress(h, path);
    d := path;
    var here := Last(path);
    var next, prev := h[here].next, h[here].prev;
    if next in h && h[next].prev == here && next != path[0] && prev in h && h[prev].next == here {
      d := FaultIsReal(h, path + [next]);
    }
  }

  /** The second assertion of the macro can only fail on the very first element. */
  lemma {:induction false} SecondCheckOnlyAtStart<T>(h: Store<T>, path: seq<T>)
    requires |path| > 0 && Chain(h, path)
    ensures Walk(h, path).PrevNextFailed? ==> |path| == 1 && Walk(h, path).here == path[0]
    decreases |h.Keys| - |path|
  {
    Progress(h, path);
    var here := Last(path);
    if |path| > 1 {
      assert Linked(h, path[|path| - 2], here);
    }
    var next := h[here].next;
    if next in h && h[next].prev == here && next != path[0] {
      SecondCheckOnlyAtStart(h, path + [next]);
    }
  }
}
