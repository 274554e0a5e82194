/** The memory a ring macro sees: one next/prev pair for every element, through one link. */
module Links {

  /** The two pointers of an APR_RING_ENTRY. */
  datatype Cell<T> = Cell(next: T, prev: T)

  /** All entries of one link, by element. A ring head is the entry of its sentinel. */
  type Store<T> = map<T, Cell<T>>

  ghost function SetNext<T>(h: Store<T>, x: T, v: T): Store<T>
    requires x in h
  {
    h[x := Cell(v, h[x].prev)]
  }

  ghost function SetPrev<T>(h: Store<T>, x: T, v: T): Store<T>
    requires x in h
  {
    h[x := Cell(h[x].next, v)]
  }

  /** Both pointers of x lead to entries of the store. */
  ghost predicate Tame<T>(h: Store<T>, x: T)
    requires x in h
  {
    h[x].next in h && h[x].prev in h
  }

  ghost predicate Closed<T>(h: Store<T>) {
    forall x {:trigger Tame(h, x)} :: x in h ==> Tame(h, x)
  }

  ghost predicate Distinct<T>(c: seq<T>) {
    forall i, j :: 0 <= i < j < |c| ==> c[i] != c[j]
  }

  ghost predicate Disjoint<T>(a: seq<T>, b: seq<T>) {
    forall x :: x in a ==> x !in b
  }

  function Last<T>(c: seq<T>): T
    requires |c| > 0
  {
    c[|c| - 1]
  }

  /** a and b are neighbours, and both of them say so. */
  ghost predicate Linked<T>(h: Store<T>, a: T, b: T) {
    a in h && b in h && h[a].next == b && h[b].prev == a
  }

  /** A run of distinct elements linked to one another; its two outer pointers may dangle. */
  ghost predicate Chain<T>(h: Store<T>, c: seq<T>) {
    && Distinct(c)
    && (forall x :: x in c ==> x in h)
    && (forall i, j :: 0 <= i && j == i + 1 && j < |c| ==> Linked(h, c[i], c[j]))
  }

  /** A chain whose last element is linked to its first. A headed ring starts with its sentinel. */
  ghost predicate Ring<T>(h: Store<T>, c: seq<T>) {
    |c| > 0 && Chain(h, c) && Linked(h, Last(c), c[0])
  }

  /** h and k agree on every pointer that Chain(_, c) looks at. */
  ghost predicate SameInside<T>(h: Store<T>, k: Store<T>, c: seq<T>) {
    forall x :: x in c ==>
      x in h && x in k &&
      (x != c[|c| - 1] ==> k[x].next == h[x].next) && (x != c[0] ==> k[x].prev == h[x].prev)
  }

  lemma ChainFrame<T>(h: Store<T>, k: Store<T>, c: seq<T>)
    requires Chain(h, c) && SameInside(h, k, c)
    ensures Chain(k, c)
  {
  }

  lemma RingFrame<T>(h: Store<T>, k: Store<T>, c: seq<T>)
    requires Ring(h, c) && forall x :: x in c ==> x in k && k[x] == h[x]
    ensures Ring(k, c)
  {
  }

  lemma ChainJoin<T>(h: Store<T>, a: seq<T>, b: seq<T>)
    requires Chain(h, a) && Chain(h, b) && Disjoint(a, b)
    requires |a| > 0 && |b| > 0 ==> Linked(h, Last(a), b[0])
    ensures Chain(h, a + b)
  {
    var c := a + b;
    forall i, j | 0 <= i < j < |c|
      ensures c[i] != c[j]
    {
      if i < |a| <= j {
        assert a[i] in a && b[j - |a|] in b;
      }
    }
  }

  lemma ChainSlice<T>(h: Store<T>, c: seq<T>, i: nat, j: nat)
    requires Chain(h, c) && i <= j <= |c|
    ensures Chain(h, c[i..j])
    ensures 0 < i < |c| ==> Linked(h, c[i - 1], c[i])
    ensures Disjoint(c[..i], c[i..])
  {
  }

  lemma LastApart<T>(a: seq<T>, b: seq<T>)
    requires |b| > 0
    ensures (a + b)[..|a + b| - 1] == a + b[..|b| - 1] && Last(a + b) == Last(b)
  {
  }

  /** A ring has no first element: any rotation of it is the same ring. */
  lemma RingRotate<T>(h: Store<T>, c: seq<T>, k: nat)
    requires Ring(h, c) && k <= |c|
    ensures Ring(h, c[k..] + c[..k])
  {
  }

  lemma {:induction false} SameStart<T>(h: Store<T>, c: seq<T>, d: seq<T>)
    requires Ring(h, c) && Ring(h, d) && c[0] == d[0]
    ensures c == d
  {
    if |c| <= |d| {
      RingPrefix(h, c, d, |c|);
    } else {
      RingPrefix(h, d, c, |d|);
    }
  }

  /** A store determines the ring through any given element: read from there, it is always the same. */
  lemma RingUnique<T>(h: Store<T>, c: seq<T>, d: seq<T>, i: nat, j: nat)
    requires Ring(h, c) && Ring(h, d) && i < |c| && j < |d| && c[i] == d[j]
    ensures c[i..] + c[..i] == d[j..] + d[..j]
  {
    RingRotate(h, c, i);
    RingRotate(h, d, j);
    SameStart(h, c[i..] + c[..i], d[j..] + d[..j]);
  }

  /** Two rings of one store share no element, or they are the same ring read from different elements. */
  lemma RingsDisjointOrSame<T>(h: Store<T>, c: seq<T>, d: seq<T>)
    requires Ring(h, c) && Ring(h, d)
    ensures Disjoint(c, d) || exists k :: 0 <= k < |d| && c == d[k..] + d[..k]
  {
    if x :| x in c && x in d {
      var i :| 0 <= i < |c| && c[i] == x;
      var j :| 0 <= j < |d| && d[j] == x;
      RingUnique(h, c, d, i, j);
      RotateBack(c, d, i, j);
    }
  }

  /** If c turned by i is d turned by j, then c is a turn of d. */
  lemma RotateBack<T>(c: seq<T>, d: seq<T>, i: nat, j: nat)
    requires i < |c| && j < |d| && c[i..] + c[..i] == d[j..] + d[..j]
    ensures exists k :: 0 <= k < |d| && c == d[k..] + d[..k]
  {
    var e := c[i..] + c[..i];
    assert |e| == |c| == |d|;
    var k := if i <= j then j - i else j - i + |d|;
    var f := d[k..] + d[..k];
    forall n | 0 <= n < |c|
      ensures c[n] == f[n]
    {
      if n >= i { assert c[n] == e[n - i]; } else { assert c[n] == e[n + |c| - i]; }
    }
    assert c == f;
  }

  lemma {:induction false} RingPrefix<T>(h: Store<T>, c: seq<T>, d: seq<T>, n: nat)
    requires Ring(h, c) && Ring(h, d) && c[0] == d[0]
    requires 1 <= n <= |c| <= |d|
    ensures c[..n] == d[..n]
  {
    if n > 1 {
      RingPrefix(h, c, d, n - 1);
      assert Linked(h, c[n - 2], c[n - 1]) && Linked(h, d[n - 2], d[n - 1]);
    }
  }

  /** A ring fixes every pointer of its elements. */
  lemma RingCells<T>(h: Store<T>, k: Store<T>, c: seq<T>, x: T)
    requires Ring(h, c) && Ring(k, c) && x in c
    ensures x in h && x in k && h[x] == k[x]
  {
    var i :| 0 <= i < |c| && c[i] == x;
    if i > 0 {
      assert Linked(h, c[i - 1], c[i]) && Linked(k, c[i - 1], c[i]);
    }
    if i + 1 < |c| {
      assert Linked(h, c[i], c[i + 1]) && Linked(k, c[i], c[i + 1]);
    }
  }

  /** Distinct elements of a finite set cannot outnumber it. */
  lemma {:induction false} DistinctFits<T>(c: seq<T>, s: set<T>)
    requires Distinct(c) && forall x :: x in c ==> x in s
    ensures |c| <= |s|
  {
    if |c| > 0 {
      var n := |c| - 1;
      forall x | x in c[..n]
        ensures x in s - {c[n]}
      {
        var i :| 0 <= i < n && c[i] == x;
      }
      DistinctFits(c[..n], s - {c[n]});
    }
  }
}
