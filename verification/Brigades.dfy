/** Bucket brigades: rings of buckets, checked for consistency after each change, and the bytes in them. */
module Brigades {
  import opened Links
  import opened AprRing
  import Ops = RingOps
  import Check = RingCheck
  import Move = RingMove

  /** What a bucket holds. Metadata describes the bytes of a brigade and adds none of its own. */
  datatype Body = Body(typeName: string, isMetadata: bool, bytes: seq<bv8>)

  type Bucket = Element<Body>

  /** The calls made through the function pointers of a bucket. */
  datatype Event = Destroyed(body: Body) | Freed(e: Bucket)

  /** apr_bucket_type_t.destroy and apr_bucket.free, of which only the calls are known. */
  class Calls {
    var events: seq<Event>

    method Destroy(body: Body)
      modifies this
      ensures events == old(events) + [Destroyed(body)]
    {
      events := events + [Destroyed(body)];
    }

    method Free(e: Bucket)
      modifies this
      ensures events == old(events) + [Freed(e)]
    {
      events := events + [Freed(e)];
    }
  }

  /** The content of a brigade whose buckets are xs. */
  function Bytes(xs: seq<Bucket>): seq<bv8> {
    if |xs| == 0 then []
    else Bytes(xs[..|xs| - 1]) + (if Last(xs).data.isMetadata then [] else Last(xs).data.bytes)
  }

  lemma {:induction false} BytesConcat(xs: seq<Bucket>, ys: seq<Bucket>)
    ensures Bytes(xs + ys) == Bytes(xs) + Bytes(ys)
  {
    if |ys| == 0 {
      assert xs + ys == xs;
    } else {
      BytesConcat(xs, ys[..|ys| - 1]);
      LastApart(xs, ys);
    }
  }

  lemma Halves(xs: seq<Bucket>, i: nat)
    requires i <= |xs|
    ensures xs == xs[..i] + xs[i..]
  {
  }

  /** Cutting a brigade in two conserves its content. */
  lemma BytesSplit(xs: seq<Bucket>, i: nat)
    requires i <= |xs|
    ensures Bytes(xs[..i]) + Bytes(xs[i..]) == Bytes(xs)
  {
    BytesConcat(xs[..i], xs[i..]);
    Halves(xs, i);
  }

  /** What one bucket adds: the data of a data bucket, nothing of a metadata bucket. */
  lemma BytesOfOne(b: Bucket)
    ensures !b.data.isMetadata ==> Bytes([b]) == b.data.bytes
    ensures b.data.isMetadata ==> Bytes([b]) == []
  {
    assert [b][..0] == [];
  }

  /** The data of every data bucket stands in the content, behind that of the buckets before it. */
  lemma BytesAt(xs: seq<Bucket>, i: nat)
    requires i < |xs| && !xs[i].data.isMetadata
    ensures var at, n := |Bytes(xs[..i])|, |xs[i].data.bytes|;
      at + n <= |Bytes(xs)| && Bytes(xs)[at..at + n] == xs[i].data.bytes
  {
    Halves(xs, i);
    BytesConcat(xs[..i], xs[i..]);
    assert xs[i..] == [xs[i]] + xs[i + 1..];
    BytesConcat([xs[i]], xs[i + 1..]);
    BytesOfOne(xs[i]);
  }

  function IsData(): Bucket -> bool {
    (b: Bucket) => !b.data.isMetadata
  }

  function Total(xs: seq<Bucket>): nat {
    if |xs| == 0 then 0 else Total(xs[..|xs| - 1]) + |Last(xs).data.bytes|
  }

  /** The content is as long as the data of the data buckets together: there is nothing else in it. */
  lemma {:induction false} OnlyDataCounts(xs: seq<Bucket>)
    ensures |Bytes(xs)| == Total(Move.Filter(IsData(), xs))
  {
    if |xs| > 0 {
      var most := xs[..|xs| - 1];
      OnlyDataCounts(most);
      var kept := Move.Filter(IsData(), most);
      assert kept + [] == kept && (kept + [Last(xs)])[..|kept|] == kept;
      assert Total(kept + [Last(xs)]) == Total(kept) + |Last(xs).data.bytes|;
    }
  }

  /** The calls that deleting the buckets of xs one after the other makes. */
  function Deaths(xs: seq<Bucket>): seq<Event> {
    if |xs| == 0 then [] else [Destroyed(xs[0].data), Freed(xs[0])] + Deaths(xs[1..])
  }

  /** Each bucket in its turn: first its data is destroyed, then it is freed. */
  lemma {:induction false} DeathsAt(xs: seq<Bucket>, i: nat)
    requires i < |xs|
    ensures |Deaths(xs)| == 2 * |xs|
    ensures Deaths(xs)[2 * i] == Destroyed(xs[i].data) && Deaths(xs)[2 * i + 1] == Freed(xs[i])
  {
    if |xs| > 1 {
      DeathsAt(xs[1..], if i == 0 then 0 else i - 1);
    }
  }

  lemma OneDeath(events: seq<Event>, xs: seq<Bucket>)
    requires |xs| > 0
    ensures events + [Destroyed(xs[0].data), Freed(xs[0])] + Deaths(xs[1..]) == events + Deaths(xs)
  {
  }

  /** The walk from an element of a ring is tame, and it passes. */
  lemma RingPasses(h: Store<Bucket>, c: seq<Bucket>, k: nat)
    requires Ring(h, c) && k < |c|
    ensures c[k] in h && !Check.Walk(h, [c[k]]).Wild?
    ensures exists d :: Ring(h, d) && d[0] == c[k]
  {
    Check.CheckPassesOnRing(h, c, k);
  }

  class Brigade {
    const list: Head<Body>

    constructor ()
      ensures fresh(list) && fresh(list.sentinel) && list.link == A && list.Holds({list.sentinel}, [])
    {
      list := new Head<Body>(A);
    }

    /** APR_BRIGADE_CHECK_CONSISTENCY */
    method CheckConsistency(ghost S: set<Bucket>, ghost xs: seq<Bucket>) returns (ok: bool)
      requires list.Holds(S, xs)
      ensures ok
    {
      RingPasses(Snap(S, list.link), [list.sentinel] + xs, 0);
      ok := CheckElemConsistency(list.sentinel, list.link, S);
    }

    /** APR_BRIGADE_INSERT_HEAD; ok is what the trailing check says. */
    method InsertHead(e: Bucket, ghost S: set<Bucket>, ghost xs: seq<Bucket>) returns (ok: bool)
      requires list.Holds(S, xs) && e in S && e !in [list.sentinel] + xs
      modifies list.sentinel, list.sentinel.Next(list.link), e
      ensures ok && list.Holds(S, [e] + xs) && OnlyWithin(S, list.link, [list.sentinel] + xs + [e])
    {
      list.InsertHead(e, S, xs);
      ok := CheckConsistency(S, [e] + xs);
    }

    /** APR_BRIGADE_INSERT_TAIL */
    method InsertTail(e: Bucket, ghost S: set<Bucket>, ghost xs: seq<Bucket>) returns (ok: bool)
      requires list.Holds(S, xs) && e in S && e !in [list.sentinel] + xs
      modifies list.sentinel, list.sentinel.Prev(list.link), e
      ensures ok && list.Holds(S, xs + [e]) && OnlyWithin(S, list.link, [list.sentinel] + xs + [e])
    {
      list.InsertTail(e, S, xs);
      ok := CheckConsistency(S, xs + [e]);
    }

    /** APR_BRIGADE_CONCAT of b onto this brigade */
    method Concat(b: Brigade, ghost S: set<Bucket>, ghost xs: seq<Bucket>, ghost ys: seq<Bucket>) returns (ok: bool)
      requires b.list.link == list.link && list.Holds(S, xs) && b.list.Holds(S, ys)
      requires Disjoint([list.sentinel] + xs, [b.list.sentinel] + ys)
      modifies list.sentinel, list.sentinel.Prev(list.link), b.list.sentinel, b.list.First(), b.list.Last()
      ensures ok && list.Holds(S, xs + ys) && b.list.Holds(S, [])
      ensures Bytes(xs + ys) == Bytes(xs) + Bytes(ys)
      ensures OnlyWithin(S, list.link, [list.sentinel] + xs + ([b.list.sentinel] + ys))
    {
      list.Concat(b.list, S, xs, ys);
      BytesConcat(xs, ys);
      ok := CheckConsistency(S, xs + ys);
    }

    /** APR_BRIGADE_PREPEND of b to this brigade */
    method Prepend(b: Brigade, ghost S: set<Bucket>, ghost xs: seq<Bucket>, ghost ys: seq<Bucket>) returns (ok: bool)
      requires b.list.link == list.link && list.Holds(S, xs) && b.list.Holds(S, ys)
      requires Disjoint([list.sentinel] + xs, [b.list.sentinel] + ys)
      modifies list.sentinel, list.sentinel.Next(list.link), b.list.sentinel, b.list.First(), b.list.Last()
      ensures ok && list.Holds(S, ys + xs) && b.list.Holds(S, [])
      ensures Bytes(ys + xs) == Bytes(ys) + Bytes(xs)
      ensures OnlyWithin(S, list.link, [list.sentinel] + xs + ([b.list.sentinel] + ys))
    {
      list.Prepend(b.list, S, xs, ys);
      BytesConcat(ys, xs);
      ok := CheckConsistency(S, ys + xs);
    }

    /** The buckets from e, at position i, to the last one move to the empty brigade a. */
    method MoveTail(e: Bucket, a: Brigade, ghost S: set<Bucket>, ghost xs: seq<Bucket>, ghost i: nat)
      requires a.list.link == list.link && list.Holds(S, xs) && i < |xs| && xs[i] == e
      requires a.list.Holds(S, []) && a.list.sentinel !in [list.sentinel] + xs
      modifies list.sentinel, a.list.sentinel, xs
      ensures list.Holds(S, xs[..i]) && a.list.Holds(S, xs[i..])
      ensures Disjoint([list.sentinel] + xs[..i], [a.list.sentinel] + xs[i..])
      ensures Bytes(xs[..i]) + Bytes(xs[i..]) == Bytes(xs)
      ensures OnlyWithin(S, list.link, [list.sentinel] + xs + [a.list.sentinel])
    {
      assert [a.list.sentinel] + [] == [a.list.sentinel];
      ghost var k, m := Ops.MoveTail(Snap(S, list.link), list.sentinel, xs, i, a.list.sentinel);
      var f := list.Last();
      Unsplice(e, f, list.link, S);
      SpliceAfter(a.list.sentinel, e, f, list.link, S);
      BytesSplit(xs, i);
    }

    /** apr_bucket_delete(APR_BRIGADE_FIRST(b)), the first bucket having been read before. */
    method DeleteFirst(calls: Calls, ghost S: set<Bucket>, ghost ys: seq<Bucket>)
      requires list.link == A && list.Holds(S, ys) && |ys| > 0
      modifies calls, list.sentinel, list.First().Next(A)
      ensures list.Holds(S, ys[1..]) && OnlyWithin(S, A, [list.sentinel] + ys)
      ensures calls.events == old(calls.events) + [Destroyed(ys[0].data), Freed(ys[0])]
    {
      ghost var c := [list.sentinel] + ys;
      list.Ends(S, ys);
      Ops.FirstInPlace(Snap(S, A), list.sentinel, ys);
      var e := list.First();
      BucketDelete(e, calls, S, c);
      assert c[1] == e && c[..1] + c[2..] == [list.sentinel] + ys[1..];
    }

    /** apr_brigade_cleanup: every bucket is deleted. */
    method Cleanup(calls: Calls, ghost S: set<Bucket>, ghost ys: seq<Bucket>)
      requires list.link == A && list.Holds(S, ys)
      modifies calls, list.sentinel, ys
      ensures list.Holds(S, []) && OnlyWithin(S, A, [list.sentinel] + ys)
      ensures calls.events == old(calls.events) + Deaths(ys)
    {
      ghost var rest := ys;
      list.Ends(S, ys);
      while !list.Empty()
        invariant list.Holds(S, rest) && (list.Empty() <==> rest == []) && forall x :: x in rest ==> x in ys
        invariant OnlyWithin(S, A, [list.sentinel] + ys)
        invariant calls.events + Deaths(rest) == old(calls.events) + Deaths(ys)
        decreases |rest|
      {
        assert list.First().Next(A) in [list.sentinel] + ys by { list.Second(S, rest); }
        OneDeath(calls.events, rest);
        DeleteFirst(calls, S, rest);
        rest := rest[1..];
        list.Ends(S, rest);
      }
    }

    /** Brigade a, emptied if need be, or a new brigade if a is NULL; this brigade keeps its buckets. */
    method EmptyTarget(a: Brigade?, calls: Calls, ghost S: set<Bucket>, ghost xs: seq<Bucket>, ghost ys: seq<Bucket>)
      returns (r: Brigade, ghost S': set<Bucket>)
      requires list.link == A && list.Holds(S, xs)
      requires a != null ==>
        a.list.link == A && a.list.Holds(S, ys) && Disjoint([list.sentinel] + xs, [a.list.sentinel] + ys)
      requires a == null ==> ys == []
      modifies calls, ys, if a != null then {a.list.sentinel} else {}
      ensures if a != null then r == a && S' == S else fresh(r) && fresh(r.list.sentinel) && S' == S + {r.list.sentinel}
      ensures r.list.link == A && list.Holds(S', xs) && r.list.Holds(S', []) && r.list.sentinel !in [list.sentinel] + xs
      ensures calls.events == old(calls.events) + Deaths(ys)
      ensures OnlyWithin(S, A, ys + if a != null then [a.list.sentinel] else [])
    {
      ghost var h := Snap(S, A);
      if a != null {
        r, S' := a, S;
        a.Cleanup(calls, S, ys);
        assert a.list.sentinel in [a.list.sentinel] + ys;
      } else {
        r := new Brigade();
        S' := S + {r.list.sentinel};
        RingFrame(Snap({r.list.sentinel}, A), Snap(S', A), [r.list.sentinel] + []);
        assert forall x :: x in [list.sentinel] + xs ==> x in S;
      }
      RingFrame(h, Snap(S', A), [list.sentinel] + xs);
    }

    /**
     * apr_brigade_split_ex: the buckets from e, at position i, to the last one move to brigade a, which
     * is cleared first if it is not empty, or to a new brigade if a is NULL.
     */
    method SplitTail(e: Bucket, a: Brigade?, calls: Calls,
                     ghost S: set<Bucket>, ghost xs: seq<Bucket>, ghost i: nat, ghost ys: seq<Bucket>)
      returns (r: Brigade, ghost S': set<Bucket>)
      requires list.link == A && list.Holds(S, xs) && i < |xs| && xs[i] == e
      requires a != null ==>
        a.list.link == A && a.list.Holds(S, ys) && Disjoint([list.sentinel] + xs, [a.list.sentinel] + ys)
      requires a == null ==> ys == []
      modifies calls, list.sentinel, xs, ys, if a != null then {a.list.sentinel} else {}
      ensures if a != null then r == a && S' == S else fresh(r) && fresh(r.list.sentinel) && S' == S + {r.list.sentinel}
      ensures r.list.link == A && list.Holds(S', xs[..i]) && r.list.Holds(S', xs[i..])
      ensures Disjoint([list.sentinel] + xs[..i], [r.list.sentinel] + xs[i..])
      ensures Bytes(xs[..i]) + Bytes(xs[i..]) == Bytes(xs)
      ensures calls.events == old(calls.events) + Deaths(ys)
      ensures OnlyWithin(S, A, [list.sentinel] + xs + (ys + if a != null then [a.list.sentinel] else []))
    {
      ghost var zs := ys + if a != null then [a.list.sentinel] else [];
      r, S' := EmptyTarget(a, calls, S, xs, ys);
      ghost var k, other := Snap(S', A), Snap(S, B);
      MoveTail(e, r, S', xs, i);
      forall x | x in S
        ensures Snap(S, B)[x] == other[x]
        ensures x !in [list.sentinel] + xs + zs ==> Snap(S, A)[x] == k[x]
      {
        assert Snap(S', B)[x] == Snap(S, B)[x] && Snap(S', A)[x] == Snap(S, A)[x];
      }
    }

    /** A tail that was split off at position i is concatenated again. */
    method Rejoin(a: Brigade, ghost S: set<Bucket>, ghost xs: seq<Bucket>, ghost i: nat) returns (ok: bool)
      requires a.list.link == list.link && i <= |xs| && list.Holds(S, xs[..i]) && a.list.Holds(S, xs[i..])
      requires Disjoint([list.sentinel] + xs[..i], [a.list.sentinel] + xs[i..])
      modifies list.sentinel, a.list.sentinel, xs
      ensures ok && list.Holds(S, xs) && a.list.Holds(S, [])
      ensures OnlyWithin(S, list.link, [list.sentinel] + xs + [a.list.sentinel])
    {
      Halves(xs, i);
      list.Ends(S, xs[..i]);
      a.list.Ends(S, xs[i..]);
      ok := Concat(a, S, xs[..i], xs[i..]);
      forall x | x !in [list.sentinel] + xs + [a.list.sentinel]
        ensures x !in [list.sentinel] + xs[..i] + ([a.list.sentinel] + xs[i..])
      {
      }
    }

    /** Splitting a tail off and concatenating it again restores every pointer of the memory. */
    method SplitAndRejoin(e: Bucket, a: Brigade, ghost S: set<Bucket>, ghost xs: seq<Bucket>, ghost i: nat)
      returns (ok: bool)
      requires a.list.link == list.link && list.Holds(S, xs) && i < |xs| && xs[i] == e
      requires a.list.Holds(S, []) && a.list.sentinel !in [list.sentinel] + xs
      modifies list.sentinel, a.list.sentinel, xs
      ensures ok && list.Holds(S, xs) && a.list.Holds(S, [])
      ensures Snap(S, A) == old(Snap(S, A)) && Snap(S, B) == old(Snap(S, B))
    {
      ghost var h := Snap(S, list.link);
      assert [a.list.sentinel] + [] == [a.list.sentinel];
      MoveTail(e, a, S, xs, i);
      ok := Rejoin(a, S, xs, i);
      Ops.SameRingsSameStore(h, Snap(S, list.link), list.sentinel, xs, a.list.sentinel);
    }
  }

  /** APR_BUCKET_INSERT_BEFORE of b, a being the element at position i of a ring; ok is the trailing check from a. */
  method BucketInsertBefore(a: Bucket, b: Bucket, ghost S: set<Bucket>, ghost c: seq<Bucket>, ghost i: nat)
    returns (ok: bool)
    requires Ring(Snap(S, A), c) && 1 <= i < |c| && a == c[i] && b in S && b !in c
    modifies a, b, a.Prev(A)
    ensures ok && Ring(Snap(S, A), c[..i] + [b] + c[i..]) && OnlyWithin(S, A, c + [b])
  {
    ghost var k := Ops.SpliceAnywhere(Snap(S, A), c, i, [b]);
    InsertBefore(a, b, A, S);
    RingPasses(Snap(S, A), c[..i] + [b] + c[i..], i + 1);
    ok := CheckElemConsistency(a, A, S);
  }

  /** APR_BUCKET_INSERT_AFTER of b, a being the element at position i of a ring. */
  method BucketInsertAfter(a: Bucket, b: Bucket, ghost S: set<Bucket>, ghost c: seq<Bucket>, ghost i: nat)
    returns (ok: bool)
    requires Ring(Snap(S, A), c) && i < |c| && a == c[i] && b in S && b !in c
    modifies a, b, a.Next(A)
    ensures ok && Ring(Snap(S, A), c[..i + 1] + [b] + c[i + 1..]) && OnlyWithin(S, A, c + [b])
  {
    ghost var k := Ops.SpliceAnywhere(Snap(S, A), c, i + 1, [b]);
    InsertAfter(a, b, A, S);
    RingPasses(Snap(S, A), c[..i + 1] + [b] + c[i + 1..], i);
    ok := CheckElemConsistency(a, A, S);
  }

  /** APR_BUCKET_INIT */
  method BucketInit(e: Bucket, ghost S: set<Bucket>)
    requires e in S
    modifies e
    ensures Ring(Snap(S, A), [e]) && OnlyWithin(S, A, [e])
  {
    Ops.ElemInitRing(Snap(S, A), e);
    ElemInit(e, A, S);
  }

  /** apr_bucket_destroy */
  method BucketDestroy(e: Bucket, calls: Calls)
    modifies calls
    ensures calls.events == old(calls.events) + [Destroyed(e.data), Freed(e)]
  {
    calls.Destroy(e.data);
    calls.Free(e);
  }

  /**
   * apr_bucket_delete: REMOVE, then the data is destroyed, then the bucket freed. Ring c is any ring.
   * If the bucket is on it, c loses just the bucket; if it is alone there, having only been
   * APR_BUCKET_INITed, no pointer changes. If it is not, c stays a ring if and only if the elements
   * that the bucket still names as neighbours are adjacent there.
   */
  method BucketDelete(e: Bucket, calls: Calls, ghost S: set<Bucket>, ghost c: seq<Bucket>)
    requires e in S && e.Prev(A) in S && e.Next(A) in S && Ring(Snap(S, A), c)
    modifies calls, e.Prev(A), e.Next(A)
    ensures calls.events == old(calls.events) + [Destroyed(e.data), Freed(e)]
    ensures Snap(S, B) == old(Snap(S, B)) && Snap(S, A) == Ops.Unsplice(old(Snap(S, A)), e, e)
    ensures forall i :: 0 <= i < |c| && c[i] == e && |c| > 1 ==> Ring(Snap(S, A), c[..i] + c[i + 1..])
    ensures e in c ==> OnlyWithin(S, A, c) && (|c| == 1 ==> Snap(S, A) == old(Snap(S, A)))
    ensures e !in c ==> (Ring(Snap(S, A), c) <==> old(Ops.StillAdjacent(Snap(S, A), c, e)))
    ensures old(Linked(Snap(S, A), e.Prev(A), e.Next(A))) ==> Snap(S, A) == old(Snap(S, A))
  {
    ghost var k := Ops.RemoveAnyhow(Snap(S, A), c, e);
    Remove(e, A, S);
    BucketDestroy(e, calls);
    assert Snap(S, A) == k;
  }
}
