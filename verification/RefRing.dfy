/** A ring without a head in place of a reference count, as apr_mmap_t uses one. */
module RefRing {
  import opened Links
  import Ops = RingOps

  /** Dup: a new member joins after live[at]. Drop: live[at] is removed. */
  datatype Event<T> = Dup(at: nat, x: T) | Drop(at: nat)

  ghost predicate CanDo<T>(h: Store<T>, live: seq<T>, e: Event<T>) {
    match e
    case Dup(at, x) => at < |live| && x in h && x !in live
    case Drop(at) => at < |live|
  }

  /** Who is alive afterwards. */
  function Live<T>(live: seq<T>, e: Event<T>): seq<T>
    requires e.at < |live|
  {
    match e
    case Dup(at, x) => live[..at + 1] + [x] + live[at + 1..]
    case Drop(at) => live[..at] + live[at + 1..]
  }

  /** The macro calls, INSERT_AFTER and REMOVE, on the pointers. */
  ghost function Do<T>(h: Store<T>, live: seq<T>, e: Event<T>): Store<T>
    requires Members(h, live) && CanDo(h, live, e)
  {
    MembersLinked(h, live, e.at);
    match e
    case Dup(at, x) => Ops.SpliceAfter(h, live[at], x, x)
    case Drop(at) => Ops.Unsplice(h, live[at], live[at])
  }

  /** The live members form exactly one cycle. */
  ghost predicate Members<T>(h: Store<T>, live: seq<T>) {
    |live| > 0 ==> Ring(h, live)
  }

  lemma MembersLinked<T>(h: Store<T>, live: seq<T>, at: nat)
    requires Members(h, live) && at < |live|
    ensures live[at] in h && h[live[at]].next in h && h[live[at]].prev in h
    ensures h[live[at]].next == if at + 1 < |live| then live[at + 1] else live[0]
  {
    Ops.AtLinked(h, live, at + 1);
    if at > 0 { Ops.AtLinked(h, live, at); }
  }

  /** Removal from any position; of the last member it writes nothing. */
  lemma DropAnywhere<T>(h: Store<T>, c: seq<T>, at: nat)
    requires Ring(h, c) && at < |c|
    ensures c[at] in h && h[c[at]].next in h && h[c[at]].prev in h
    ensures Members(Ops.Unsplice(h, c[at], c[at]), c[..at] + c[at + 1..])
    ensures |c| == 1 ==> Ops.Unsplice(h, c[at], c[at]) == h
  {
    var k := Ops.RemoveAt(h, c, at);
  }

  lemma StepKeeps<T>(h: Store<T>, live: seq<T>, e: Event<T>)
    requires Members(h, live) && CanDo(h, live, e)
    ensures Members(Do(h, live, e), Live(live, e))
  {
    match e
    case Dup(at, x) =>
      var k := Ops.SpliceAnywhere(h, live, at + 1, [x]);
    case Drop(at) =>
      DropAnywhere(h, live, at);
  }

  ghost predicate CanDoAll<T>(h: Store<T>, live: seq<T>, es: seq<Event<T>>)
    requires Members(h, live)
    decreases |es|
  {
    |es| > 0 ==>
      && CanDo(h, live, es[0])
      && (StepKeeps(h, live, es[0]); CanDoAll(Do(h, live, es[0]), Live(live, es[0]), es[1..]))
  }

  ghost function DoAll<T>(h: Store<T>, live: seq<T>, es: seq<Event<T>>): (r: (Store<T>, seq<T>))
    requires Members(h, live) && CanDoAll(h, live, es)
    ensures Members(r.0, r.1)
    decreases |es|
  {
    if |es| == 0 then (h, live) else
      StepKeeps(h, live, es[0]);
      DoAll(Do(h, live, es[0]), Live(live, es[0]), es[1..])
  }

  function Dups<T>(es: seq<Event<T>>): nat {
    if |es| == 0 then 0 else (if es[0].Dup? then 1 else 0) + Dups(es[1..])
  }

  function Drops<T>(es: seq<Event<T>>): nat {
    if |es| == 0 then 0 else (if es[0].Drop? then 1 else 0) + Drops(es[1..])
  }

  lemma {:induction false} CountIsLive<T>(h: Store<T>, live: seq<T>, es: seq<Event<T>>)
    requires Members(h, live) && CanDoAll(h, live, es)
    ensures |DoAll(h, live, es).1| == |live| + Dups(es) - Drops(es)
    decreases |es|
  {
    if |es| > 0 {
      StepKeeps(h, live, es[0]);
      CountIsLive(Do(h, live, es[0]), Live(live, es[0]), es[1..]);
    }
  }

  /**
   * From ELEM_INIT of one node and after any run, a live member is its own neighbour if and only if
   * the references taken minus those dropped come to one, that is, if it is the last member.
   */
  lemma ActsAsRefCount<T>(h: Store<T>, x: T, es: seq<Event<T>>, i: nat)
    requires x in h && CanDoAll(Ops.ElemInit(h, x), [x], es)
    requires i < |DoAll(Ops.ElemInit(h, x), [x], es).1|
    ensures var (k, live) := DoAll(Ops.ElemInit(h, x), [x], es);
      && Ring(k, live) && live[i] in k && |live| == 1 + Dups(es) - Drops(es)
      && (k[live[i]].next == live[i] <==> 1 + Dups(es) - Drops(es) == 1)
  {
    var (k, live) := DoAll(Ops.ElemInit(h, x), [x], es);
    CountIsLive(Ops.ElemInit(h, x), [x], es);
    MembersLinked(k, live, i);
  }

  // ---- which memberships there are runs to ----

  /** Members join one after the other, each after the one before it. */
  lemma {:induction false} GrowFrom<T>(h: Store<T>, all: seq<T>, n: nat) returns (es: seq<Event<T>>)
    requires 1 <= n <= |all| && Distinct(all) && (forall x :: x in all ==> x in h) && Members(h, all[..n])
    ensures CanDoAll(h, all[..n], es) && DoAll(h, all[..n], es).1 == all && |es| == |all| - n
    decreases |all| - n
  {
    es := [];
    if n == |all| {
      assert all[..n] == all;
    } else {
      var live, e := all[..n], Dup(n - 1, all[n]);
      StepKeeps(h, live, e);
      assert Live(live, e) == all[..n + 1];
      var rest := GrowFrom(Do(h, live, e), all, n + 1);
      es := [e] + rest;
      assert es[1..] == rest;
    }
  }

  /** All but the first drop out, the second one first. */
  lemma {:induction false} ShrinkToFirst<T>(h: Store<T>, live: seq<T>) returns (es: seq<Event<T>>)
    requires Members(h, live) && |live| > 0
    ensures CanDoAll(h, live, es) && DoAll(h, live, es).1 == [live[0]] && Drops(es) == |es| == |live| - 1
    decreases |live|
  {
    es := [];
    if |live| > 1 {
      var e: Event<T> := Drop(1);
      StepKeeps(h, live, e);
      var rest := ShrinkToFirst(Do(h, live, e), Live(live, e));
      es := [e] + rest;
      assert es[1..] == rest;
    }
  }

  /** Any distinct nodes, in any order, are the live members after some run from ELEM_INIT of the first of them. */
  lemma EveryMembership<T>(h: Store<T>, live: seq<T>) returns (es: seq<Event<T>>)
    requires |live| > 0 && Distinct(live) && forall x :: x in live ==> x in h
    ensures CanDoAll(Ops.ElemInit(h, live[0]), [live[0]], es)
    ensures DoAll(Ops.ElemInit(h, live[0]), [live[0]], es).1 == live
  {
    assert live[..1] == [live[0]];
    es := GrowFrom(Ops.ElemInit(h, live[0]), live, 1);
  }
}
