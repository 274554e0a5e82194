/**
 * Undoing removals. UNSPLICE never writes the pointers of what it takes out, so a removed element
 * still knows where it belongs, and putting elements back in reverse order restores the memory.
 */
module RingUndo {
  import opened Links
  import Ops = RingOps

  ghost predicate CanRemove<T>(h: Store<T>, e: T) {
    e in h && h[e].prev in h && h[e].next in h
  }

  /** e can be inserted before the element that its next pointer names. */
  ghost predicate CanPutBack<T>(h: Store<T>, e: T) {
    e in h && h[e].next in h && h[h[e].next].prev in h
  }

  /** APR_RING_INSERT_BEFORE(APR_RING_NEXT(e), e), with the pointer that e still holds. */
  ghost function PutBack<T>(h: Store<T>, e: T): Store<T>
    requires CanPutBack(h, e)
  {
    Ops.SpliceBefore(h, h[e].next, e, e)
  }

  ghost predicate CanRemoveAll<T>(h: Store<T>, es: seq<T>)
    decreases |es|
  {
    |es| > 0 ==> CanRemove(h, es[0]) && CanRemoveAll(Ops.Unsplice(h, es[0], es[0]), es[1..])
  }

  /** APR_RING_REMOVE of each element in turn. */
  ghost function RemoveAll<T>(h: Store<T>, es: seq<T>): Store<T>
    requires CanRemoveAll(h, es)
    decreases |es|
  {
    if |es| == 0 then h else RemoveAll(Ops.Unsplice(h, es[0], es[0]), es[1..])
  }

  ghost predicate CanPutBackAll<T>(k: Store<T>, es: seq<T>)
    decreases |es|, 0
  {
    |es| > 0 ==> CanPutBackAll(k, es[1..]) && CanPutBack(PutBackAll(k, es[1..]), es[0])
  }

  /** The same elements put back one by one, the last one removed first. */
  ghost function PutBackAll<T>(k: Store<T>, es: seq<T>): Store<T>
    requires CanPutBackAll(k, es)
    decreases |es|, 1
  {
    if |es| == 0 then k else PutBack(PutBackAll(k, es[1..]), es[0])
  }

  /** What remains of c when the elements of es are gone. */
  function Without<T(==)>(c: seq<T>, es: seq<T>): seq<T> {
    if |c| == 0 then []
    else (if c[0] in es then [] else [c[0]]) + Without(c[1..], es)
  }

  lemma {:induction false} WithoutNone<T>(c: seq<T>, es: seq<T>)
    requires Disjoint(c, es)
    ensures Without(c, es) == c
  {
    if |c| > 0 {
      WithoutNone(c[1..], es);
    }
  }

  /** Removing the element at position i first, then the others. */
  lemma {:induction false} WithoutOneFirst<T>(c: seq<T>, i: nat, es: seq<T>)
    requires Distinct(c) && i < |c| && |es| > 0 && es[0] == c[i]
    ensures Without(c, es) == Without(c[..i] + c[i + 1..], es[1..])
  {
    var rest := c[..i] + c[i + 1..];
    if i == 0 {
      assert rest == c[1..] && c[0] in es;
      SkipAbsent(c[1..], es);
    } else {
      WithoutOneFirst(c[1..], i - 1, es);
      assert rest[1..] == c[1..][..i - 1] + c[1..][i..] && rest[0] == c[0] != es[0];
    }
  }

  lemma {:induction false} SkipAbsent<T>(c: seq<T>, es: seq<T>)
    requires |es| > 0 && es[0] !in c
    ensures Without(c, es) == Without(c, es[1..])
  {
    if |c| > 0 {
      SkipAbsent(c[1..], es);
    }
  }

  /** Both neighbours of e name it. */
  ghost predicate InPlace<T>(h: Store<T>, e: T) {
    e in h && Linked(h, h[e].prev, e) && Linked(h, e, h[e].next)
  }

  /** Each element is in place when its turn to be removed comes. */
  ghost predicate EachInPlace<T>(h: Store<T>, es: seq<T>)
    decreases |es|
  {
    |es| > 0 ==> InPlace(h, es[0]) && EachInPlace(Ops.Unsplice(h, es[0], es[0]), es[1..])
  }

  /**
   * Removed elements, put back in reverse order, each before the neighbour it still names, restore
   * every pointer of the memory. Nothing is asked but that each was in place when it was removed.
   */
  lemma {:induction false} UndoRestores<T>(h: Store<T>, es: seq<T>)
    requires EachInPlace(h, es)
    ensures CanRemoveAll(h, es) && CanPutBackAll(RemoveAll(h, es), es)
    ensures PutBackAll(RemoveAll(h, es), es) == h
    decreases |es|
  {
    if |es| > 0 {
      Ops.UnspliceUndo(h, es[0], es[0]);
      UndoRestores(Ops.Unsplice(h, es[0], es[0]), es[1..]);
    }
  }

  /** Where a ring is left after removals there may be none at all: its elements are c. */
  ghost predicate RingOrNone<T>(h: Store<T>, c: seq<T>) {
    |c| > 0 ==> Ring(h, c)
  }

  /** Elements removed from one ring, in any order, to the last one if so wanted, are each in place in their turn. */
  lemma {:induction false} RemovalsFromRing<T>(h: Store<T>, c: seq<T>, es: seq<T>)
    requires RingOrNone(h, c) && Distinct(c) && Distinct(es) && forall e :: e in es ==> e in c
    ensures EachInPlace(h, es) && CanRemoveAll(h, es) && RingOrNone(RemoveAll(h, es), Without(c, es))
    ensures RemoveAll(h, es).Keys == h.Keys && forall x :: x in h && x !in c ==> RemoveAll(h, es)[x] == h[x]
    decreases |es|
  {
    if |es| == 0 {
      WithoutNone(c, es);
    } else {
      var e := es[0];
      assert e in es;
      var i :| 0 <= i < |c| && c[i] == e;
      var k := Ops.RemoveAt(h, c, i);
      WithoutOneFirst(c, i, es);
      OthersRemain(c, i, es);
      RemovalsFromRing(k, c[..i] + c[i + 1..], es[1..]);
    }
  }

  lemma OthersRemain<T>(c: seq<T>, i: nat, es: seq<T>)
    requires Distinct(c) && Distinct(es) && |es| > 0 && i < |c| && c[i] == es[0] && forall e :: e in es ==> e in c
    ensures Distinct(c[..i] + c[i + 1..]) && forall e :: e in es[1..] ==> e in c[..i] + c[i + 1..]
  {
    forall e | e in es[1..]
      ensures e in c[..i] + c[i + 1..]
    {
      var n :| 0 <= n < |es[1..]| && es[1..][n] == e;
      assert es[n + 1] == e && e in es && e != c[i];
      var m :| 0 <= m < |c| && c[m] == e;
      assert if m < i then e in c[..i] else c[i + 1..][m - i - 1] == e;
    }
  }

  /** Any elements of a ring, with a head or without, can be removed in any order and put back. */
  lemma RemovalsUndone<T>(h: Store<T>, c: seq<T>, es: seq<T>)
    requires Ring(h, c) && Distinct(es) && forall e :: e in es ==> e in c
    ensures CanRemoveAll(h, es) && RingOrNone(RemoveAll(h, es), Without(c, es))
    ensures CanPutBackAll(RemoveAll(h, es), es) && PutBackAll(RemoveAll(h, es), es) == h
  {
    RemovalsFromRing(h, c, es);
    UndoRestores(h, es);
  }

  /** While it is out, a removed element keeps the pointers it was removed with. */
  lemma RemovedKeepPointers<T>(h: Store<T>, c: seq<T>, i: nat, es: seq<T>)
    requires Ring(h, c) && i < |c| && Distinct(es) && forall e :: e in es ==> e in c[..i] + c[i + 1..]
    ensures CanRemove(h, c[i]) && CanRemoveAll(Ops.Unsplice(h, c[i], c[i]), es)
    ensures var k := RemoveAll(Ops.Unsplice(h, c[i], c[i]), es); c[i] in k && k[c[i]] == h[c[i]]
  {
    var k := Ops.RemoveAt(h, c, i);
    RemovalsFromRing(k, c[..i] + c[i + 1..], es);
  }
}
