/**
 * Why the yard of BrigadeRuns is the right one: the pointers admit no other with the same names and
 * the same deleted elements, a deleted element is never touched again, and every tidy yard is the
 * outcome of some run.
 */
module BrigadeRunsExact {
  import opened Links
  import opened BrigadeRuns
  import Ops = RingOps
  import Check = RingCheck
  import Runs = RingRuns

  // ---- the one reading of the pointers ----

  /** The names once e has left its ring: a ring that was named by e is named by the next member. */
  ghost function NamesLess<T>(y: Yard<T>, e: T): set<T> {
    if e !in y.rings then y.rings.Keys
    else if y.rings[e] == [] then y.rings.Keys - {e}
    else y.rings.Keys - {e} + {y.rings[e][0]}
  }

  /** Which rings there are after m, by name. */
  ghost function NamesAfter<T>(y: Yard<T>, m: Macro<T>): set<T> {
    match m
    case Init(x) => y.rings.Keys + {x}
    case InsertHead(_, e) => y.rings.Keys - {e}
    case InsertTail(_, e) => y.rings.Keys - {e}
    case Before(_, e) => y.rings.Keys - {e}
    case After(_, e) => y.rings.Keys - {e}
    case Concat(_, _) => y.rings.Keys
    case Prepend(_, _) => y.rings.Keys
    case Remove(e) => if e in y.rings && y.rings[e] == [] then y.rings.Keys else NamesLess(y, e)
    case Delete(e) => NamesLess(y, e)
  }

  /** Only apr_bucket_delete frees. */
  ghost function FreedBy<T>(m: Macro<T>): set<T> {
    if m.Delete? then {m.e} else {}
  }

  ghost predicate RingsDistinct<T>(y: Yard<T>) {
    forall s :: s in y.rings ==> Distinct(Whole(y, s))
  }

  lemma OwnHome<T>(all: set<T>, y: Yard<T>, e: T)
    requires Tidy(all, y) && On(y, e)
    ensures e in y.rings ==> Home(y, e) == e
  {
    assert e in y.rings ==> e in Whole(y, e);
  }

  lemma LessNames<T>(all: set<T>, y: Yard<T>, e: T)
    requires Tidy(all, y) && RingsDistinct(y) && On(y, e)
    ensures RingsLess(y, Home(y, e), e).Keys == NamesLess(y, e)
  {
    var s := Home(y, e);
    var c := Whole(y, s);
    var i := Index(c, e);
    OwnHome(all, y, e);
    if e in y.rings {
      assert i == 0 by { assert Distinct(c) && c[0] == e; }
      assert Gap(c, 0) == y.rings[e];
    } else {
      assert Gap(c, i)[0] == s;
    }
  }

  lemma BesideNames<T>(all: set<T>, y: Yard<T>, a: T, e: T, xs: seq<T>)
    requires Tidy(all, y) && On(y, a) && Single(y, e) && e != a
    ensures Put(y, Home(y, a), e, xs).rings.Keys == y.rings.Keys - {e}
  {
    NotName(all, y, Home(y, a), a, e);
  }

  lemma ApplyNames<T>(all: set<T>, y: Yard<T>, m: Macro<T>)
    requires Tidy(all, y) && RingsDistinct(y) && Legal(y, m)
    ensures Apply(y, m).rings.Keys == NamesAfter(y, m) && Apply(y, m).freed == y.freed + FreedBy(m)
  {
    match m
    case Init(_) =>
    case InsertHead(_, _) =>
    case InsertTail(_, _) =>
    case Concat(_, _) =>
    case Prepend(_, _) =>
    case Before(a, e) => BesideNames(all, y, a, e, Apply(y, m).rings[Home(y, a)]);
    case After(a, e) => BesideNames(all, y, a, e, Apply(y, m).rings[Home(y, a)]);
    case Remove(e) =>
      OwnHome(all, y, e);
      LessNames(all, y, e);
      if y.rings[Home(y, e)] == [] { assert Whole(y, Home(y, e)) == [e] == [Home(y, e)]; }
    case Delete(e) => LessNames(all, y, e);
  }

  lemma OneRing<T>(h: Store<T>, y: Yard<T>, z: Yard<T>, s: T)
    requires AllRings(h, y) && AllRings(h, z) && s in y.rings && s in z.rings
    ensures y.rings[s] == z.rings[s]
  {
    var c, d := Whole(y, s), Whole(z, s);
    SameStart(h, c, d);
    assert c[1..] == y.rings[s] && d[1..] == z.rings[s];
  }

  lemma LooseAreTheRest<T>(all: set<T>, y: Yard<T>, z: Yard<T>)
    requires Tidy(all, y) && Tidy(all, z) && y.rings == z.rings && y.freed == z.freed
    ensures y.loose == z.loose
  {
    LooseWithin(all, y, z);
    LooseWithin(all, z, y);
  }

  lemma LooseWithin<T>(all: set<T>, y: Yard<T>, z: Yard<T>)
    requires Tidy(all, y) && Tidy(all, z) && y.rings == z.rings && y.freed == z.freed
    ensures y.loose <= z.loose
  {
    forall x | x in y.loose
      ensures x in z.loose
    {
      if On(z, x) {
        assert x in Whole(y, Home(z, x));
      }
    }
  }

  /** The memory, the names of its rings and the deleted elements determine the yard. */
  lemma OneReading<T>(h: Store<T>, y: Yard<T>, z: Yard<T>)
    requires Inv(h, y) && Inv(h, z) && y.rings.Keys == z.rings.Keys && y.freed == z.freed
    ensures z == y
  {
    forall s | s in y.rings
      ensures y.rings[s] == z.rings[s]
    {
      OneRing(h, y, z, s);
    }
    assert y.rings == z.rings;
    LooseAreTheRest(h.Keys, y, z);
  }

  /**
   * The yard after a macro is the only one that the pointers after its call spell out with the rings
   * named as they should be and with nothing freed but what apr_bucket_delete was given.
   */
  lemma ApplyIsTheReading<T>(h: Store<T>, y: Yard<T>, m: Macro<T>, z: Yard<T>)
    requires Inv(h, y) && Legal(y, m)
    ensures StepOk(h, y, m)
    ensures z == Apply(y, m) <==>
      && Inv(Runs.Do(h, CallOf(m)), z)
      && z.rings.Keys == NamesAfter(y, m) && z.freed == y.freed + FreedBy(m)
  {
    StepKeeps(h, y, m);
    RingsAreDistinct(h, y);
    ApplyNames(h.Keys, y, m);
    var k := Runs.Do(h, CallOf(m));
    if Inv(k, z) && z.rings.Keys == NamesAfter(y, m) && z.freed == y.freed + FreedBy(m) {
      OneReading(k, Apply(y, m), z);
    }
  }

  lemma RingsAreDistinct<T>(h: Store<T>, y: Yard<T>)
    requires AllRings(h, y)
    ensures RingsDistinct(y)
  {
    forall s | s in y.rings
      ensures Distinct(Whole(y, s))
    {
      assert Ring(h, Whole(y, s));
    }
  }

  /** Which elements are loose after m: what is removed or left behind is, what is inserted, initialised or deleted is not. */
  lemma LooseAfter<T>(all: set<T>, y: Yard<T>, m: Macro<T>, x: T)
    requires Tidy(all, y) && RingsDistinct(y) && Legal(y, m)
    ensures var loose := x in Apply(y, m).loose;
      && (m.Init? ==> (loose <==> x != m.x && (x in y.loose || (m.x in y.rings && x in y.rings[m.x]))))
      && (m.InsertHead? || m.InsertTail? || m.Before? || m.After? ==> (loose <==> x in y.loose && x != m.e))
      && (m.Concat? || m.Prepend? || m.Delete? ==> (loose <==> x in y.loose))
      && (m.Remove? ==> (loose <==> x in y.loose || (x == m.e && !(x in y.rings && y.rings[x] == []))))
    ensures m.Delete? ==> m.e in Apply(y, m).freed && m.e !in Apply(y, m).loose
  {
    if m.Remove? {
      OwnHome(all, y, m.e);
      if y.rings[Home(y, m.e)] == [] { assert Whole(y, Home(y, m.e)) == [m.e] == [Home(y, m.e)]; }
    }
    if m.Init? && m.x in y.rings {
      NameNotInside(y, m.x);
    }
  }

  // ---- what is freed ----

  /** The elements that m is given. */
  ghost function Named<T>(m: Macro<T>): set<T> {
    match m
    case Init(x) => {x}
    case InsertHead(b, e) => {b, e}
    case InsertTail(b, e) => {b, e}
    case Concat(a, b) => {a, b}
    case Prepend(a, b) => {a, b}
    case Before(a, e) => {a, e}
    case After(a, e) => {a, e}
    case Remove(e) => {e}
    case Delete(e) => {e}
  }

  lemma NoneFreedNamed<T>(all: set<T>, y: Yard<T>, m: Macro<T>)
    requires Tidy(all, y) && Legal(y, m)
    ensures Named(m) !! y.freed
  {
    forall x | x in Named(m)
      ensures x !in y.freed
    {
      assert x in y.rings ==> x in Whole(y, x);
      assert x in y.loose || On(y, x);
    }
  }

  lemma NeighboursOn<T>(h: Store<T>, y: Yard<T>, a: T)
    requires Inv(h, y) && On(y, a)
    ensures a in h && h[a].next in h && h[a].prev in h && On(y, h[a].next) && On(y, h[a].prev)
  {
    var s := Home(y, a);
    var c := Whole(y, s);
    var i := Index(c, a);
    assert Ring(h, c);
    Ops.AtLinked(h, c, i + 1);
    Ops.AtLinked(h, c, if i == 0 then |c| else i);
    assert h[a].next in c && h[a].prev in c;
  }

  lemma SpliceFrame<T>(h: Store<T>, lep: T, e: T, x: T)
    requires lep in h && e in h && h[lep].prev in h && h[lep].next in h && e != lep
    requires x in h && x != e && x != lep && x != h[lep].prev && x != h[lep].next
    ensures Ops.SpliceBefore(h, lep, e, e)[x] == h[x] && Ops.SpliceAfter(h, lep, e, e)[x] == h[x]
  {
  }

  lemma JoinFrame<T>(h: Store<T>, y: Yard<T>, a: T, b: T, x: T)
    requires Inv(h, y) && a in y.rings && b in y.rings && a != b && x in h && !On(y, x)
    ensures Ops.HeadsReady(h, a, b) && Ops.Concat(h, a, b)[x] == h[x] && Ops.Prepend(h, a, b)[x] == h[x]
  {
    assert Ring(h, Whole(y, a)) && Ring(h, Whole(y, b));
    assert Whole(y, a)[0] == a && Whole(y, b)[0] == b;
    assert x !in Whole(y, a) && x !in Whole(y, b);
    Ops.ConcatRings(h, Whole(y, a), Whole(y, b));
    Ops.PrependRings(h, Whole(y, a), Whole(y, b));
  }

  lemma NamedInStore<T>(h: Store<T>, y: Yard<T>, m: Macro<T>)
    requires Inv(h, y) && Legal(y, m)
    ensures Named(m) <= h.Keys
  {
    forall x | x in Named(m)
      ensures x in h
    {
      assert x in y.rings ==> x in Whole(y, x);
      assert x in y.loose || On(y, x);
    }
  }

  /** A macro writes to elements of rings and to those it is given, and to nothing else. */
  lemma StepFrame<T>(h: Store<T>, y: Yard<T>, m: Macro<T>, x: T)
    requires Inv(h, y) && Legal(y, m) && x in h && !On(y, x) && x !in Named(m)
    ensures Runs.Ready(h, CallOf(m)) && x in Runs.Do(h, CallOf(m)) && Runs.Do(h, CallOf(m))[x] == h[x]
  {
    assert Runs.Ready(h, CallOf(m)) && Runs.Do(h, CallOf(m)).Keys == h.Keys && Named(m) <= h.Keys by {
      StepKeeps(h, y, m);
      NamedInStore(h, y, m);
    }
    match m
    case Init(_) =>
    case Concat(a, b) => JoinFrame(h, y, a, b, x);
    case Prepend(a, b) => JoinFrame(h, y, a, b, x);
    case InsertHead(b, e) => InsertFrame(h, y, b, e, x);
    case InsertTail(b, e) => InsertFrame(h, y, b, e, x);
    case Before(a, e) => InsertFrame(h, y, a, e, x);
    case After(a, e) => InsertFrame(h, y, a, e, x);
    case Remove(e) => UnspliceFrame(h, y, e, x);
    case Delete(e) => UnspliceFrame(h, y, e, x);
  }

  lemma UnspliceFrame<T>(h: Store<T>, y: Yard<T>, e: T, x: T)
    requires Inv(h, y) && On(y, e) && x in h && !On(y, x)
    ensures e in h && h[e].prev in h && h[e].next in h && Ops.Unsplice(h, e, e)[x] == h[x]
  {
    NeighboursOn(h, y, e);
  }

  lemma InsertFrame<T>(h: Store<T>, y: Yard<T>, a: T, e: T, x: T)
    requires Inv(h, y) && (a in y.rings || On(y, a)) && e in h && e != a
    requires x in h && !On(y, x) && x != a && x != e
    ensures a in h && h[a].prev in h && h[a].next in h
    ensures Ops.SpliceBefore(h, a, e, e)[x] == h[x] && Ops.SpliceAfter(h, a, e, e)[x] == h[x]
  {
    assert a in y.rings ==> a in Whole(y, a);
    NeighboursOn(h, y, a);
    SpliceFrame(h, a, e, x);
  }

  /** Through any legal run a freed element stays freed, is given to no macro, and is not written. */
  lemma {:induction false} FreedStays<T>(h: Store<T>, y: Yard<T>, ms: seq<Macro<T>>, e: T)
    requires Inv(h, y) && AllLegal(y, ms) && e in y.freed
    ensures RunsClean(h, ms) && e in ApplyAll(y, ms).freed
    ensures forall i :: 0 <= i < |ms| ==> e !in Named(ms[i])
    ensures e in h && e in DoAll(h, ms) && DoAll(h, ms)[e] == h[e]
    decreases |ms|
  {
    if |ms| > 0 {
      NoneFreedNamed(h.Keys, y, ms[0]);
      assert !On(y, e);
      StepFrame(h, y, ms[0], e);
      ApplyIsTheReading(h, y, ms[0], Apply(y, ms[0]));
      FreedStays(Runs.Do(h, CallOf(ms[0])), Apply(y, ms[0]), ms[1..], e);
      forall i | 0 <= i < |ms|
        ensures e !in Named(ms[i])
      {
        assert i > 0 ==> ms[i] == ms[1..][i - 1];
      }
    }
  }

  /**
   * Deletion is for good: e is freed and not loose, so from then on no legal run gives e to a macro
   * again, and the entry of e stays as it was when e was freed, whatever the run does.
   */
  lemma DeletedForGood<T>(h: Store<T>, y: Yard<T>, e: T, ms: seq<Macro<T>>)
    requires Inv(h, y) && Legal(y, Delete(e)) && AllLegal(Apply(y, Delete(e)), ms)
    ensures Apply(y, Delete(e)).freed == y.freed + {e} && Apply(y, Delete(e)).loose == y.loose
    ensures Runs.Ready(h, CallOf(Delete(e)))
    ensures var k, z := Runs.Do(h, CallOf(Delete(e))), ApplyAll(Apply(y, Delete(e)), ms);
      && RunsClean(k, ms) && y.freed + {e} <= z.freed
      && (forall i :: 0 <= i < |ms| ==> e !in Named(ms[i]))
      && e in k && e in DoAll(k, ms) && DoAll(k, ms)[e] == k[e]
  {
    StepKeeps(h, y, Delete(e));
    var k, next := Runs.Do(h, CallOf(Delete(e))), Apply(y, Delete(e));
    forall x | x in next.freed
      ensures x in ApplyAll(next, ms).freed
    {
      FreedStays(k, next, ms, x);
    }
    FreedStays(k, next, ms, e);
  }

  // ---- what is checked ----

  /** The check from a passes, having gone once round ring d and nothing else. */
  ghost predicate ChecksRing<T>(h: Store<T>, a: T, d: seq<T>) {
    Ring(h, d) && d[0] == a && a in h && Check.Walk(h, [a]) == Check.Passed(d)
  }

  /** Macro m ends with one check, from a, and after its call that goes round ring d. */
  ghost predicate EndsWithCheck<T>(h: Store<T>, m: Macro<T>, a: T, d: seq<T>) {
    Runs.Ready(h, CallOf(m)) && CheckedFrom(m) == {a} && ChecksRing(Runs.Do(h, CallOf(m)), a, d)
  }

  lemma ChecksNamed<T>(h: Store<T>, y: Yard<T>, m: Macro<T>, a: T, d: seq<T>)
    requires Inv(h, y) && Legal(y, m) && CheckedFrom(m) == {a} && a in Apply(y, m).rings && d == Whole(Apply(y, m), a)
    ensures EndsWithCheck(h, m, a, d)
  {
    StepKeeps(h, y, m);
    assert Ring(Runs.Do(h, CallOf(m)), d);
    Check.CheckIsExact(Runs.Do(h, CallOf(m)), a);
  }

  /** The insertions at the ends of a brigade check the brigade, which has the new bucket. */
  lemma InsertChecks<T>(h: Store<T>, y: Yard<T>, b: T, e: T)
    requires Inv(h, y) && Legal(y, InsertHead(b, e))
    ensures EndsWithCheck(h, InsertHead(b, e), b, [b] + ([e] + y.rings[b]))
    ensures EndsWithCheck(h, InsertTail(b, e), b, [b] + (y.rings[b] + [e]))
  {
    ChecksNamed(h, y, InsertHead(b, e), b, [b] + ([e] + y.rings[b]));
    ChecksNamed(h, y, InsertTail(b, e), b, [b] + (y.rings[b] + [e]));
  }

  /** The joins check the brigade that has the buckets of both. */
  lemma JoinChecks<T>(h: Store<T>, y: Yard<T>, a: T, b: T)
    requires Inv(h, y) && Legal(y, Concat(a, b))
    ensures EndsWithCheck(h, Concat(a, b), a, [a] + (y.rings[a] + y.rings[b]))
    ensures EndsWithCheck(h, Prepend(a, b), a, [a] + (y.rings[b] + y.rings[a]))
  {
    ChecksNamed(h, y, Concat(a, b), a, [a] + (y.rings[a] + y.rings[b]));
    ChecksNamed(h, y, Prepend(a, b), a, [a] + (y.rings[b] + y.rings[a]));
  }

  lemma RingFrom<T>(h: Store<T>, y: Yard<T>, a: T, e: T) returns (t: seq<T>)
    requires Inv(h, y) && On(y, a) && Single(y, e) && e != a
    ensures Ring(h, [a] + t) && e in h && e !in [a] + t
  {
    var s := Home(y, a);
    var c := Whole(y, s);
    var i := Index(c, a);
    NotName(h.Keys, y, s, a, e);
    SingleApart(h.Keys, y, s, e);
    assert Ring(h, c);
    RingRotate(h, c, i);
    var r := c[i..] + c[..i];
    t := r[1..];
    assert r == [a] + t;
  }

  lemma BeforeChecks<T>(h: Store<T>, a: T, t: seq<T>, e: T)
    requires Ring(h, [a] + t) && e in h && e !in [a] + t
    ensures EndsWithCheck(h, Before(a, e), a, [a] + (t + [e]))
  {
    var k := Ops.SpliceAtTail(h, a, t, [e]);
    assert k == Runs.Do(h, CallOf(Before(a, e)));
    Check.CheckIsExact(k, a);
  }

  lemma AfterChecks<T>(h: Store<T>, a: T, t: seq<T>, e: T)
    requires Ring(h, [a] + t) && e in h && e !in [a] + t
    ensures EndsWithCheck(h, After(a, e), a, [a] + ([e] + t))
  {
    var k := Ops.SpliceAtHead(h, a, t, [e]);
    assert k == Runs.Do(h, CallOf(After(a, e)));
    Check.CheckIsExact(k, a);
  }

  /** The insertions beside a bucket a check the ring of a: read from a, the new bucket comes last, or next. */
  lemma BesideChecks<T>(h: Store<T>, y: Yard<T>, a: T, e: T) returns (t: seq<T>)
    requires Inv(h, y) && Legal(y, Before(a, e))
    ensures Ring(h, [a] + t)
    ensures EndsWithCheck(h, Before(a, e), a, [a] + (t + [e])) && EndsWithCheck(h, After(a, e), a, [a] + ([e] + t))
  {
    t := RingFrom(h, y, a, e);
    BeforeChecks(h, a, t, e);
    AfterChecks(h, a, t, e);
  }

  // ---- what is legal, and what can be reached ----

  /** Whatever the macros are documented for is legal: only what is loose or deleted cannot be removed or stood beside. */
  lemma DocumentedUseIsLegal<T>(all: set<T>, y: Yard<T>)
    requires Tidy(all, y)
    ensures forall a, b :: a in y.rings && b in y.rings && a != b ==> Legal(y, Concat(a, b)) && Legal(y, Prepend(a, b))
    ensures forall b, e :: b in y.rings && e in y.loose ==> Legal(y, InsertHead(b, e)) && Legal(y, InsertTail(b, e))
    ensures forall b, e :: b in y.rings && e in y.rings && y.rings[e] == [] && e != b ==>
      Legal(y, InsertHead(b, e)) && Legal(y, InsertTail(b, e))
    ensures forall x :: x in all && x !in y.loose && x !in y.freed ==> Legal(y, Remove(x)) && Legal(y, Delete(x))
    ensures forall x, e :: x in all && x !in y.loose && x !in y.freed && e in y.loose ==>
      Legal(y, Before(x, e)) && Legal(y, After(x, e))
    ensures forall x, e :: x in all && x !in y.loose && x !in y.freed && e in y.rings && y.rings[e] == [] && e != x ==>
      Legal(y, Before(x, e)) && Legal(y, After(x, e))
  {
    assert forall b :: b in y.rings ==> b in Whole(y, b);
  }

  lemma {:induction false} RunThen<T>(y: Yard<T>, ms: seq<Macro<T>>, m: Macro<T>)
    requires AllLegal(y, ms) && Legal(ApplyAll(y, ms), m)
    ensures AllLegal(y, ms + [m]) && ApplyAll(y, ms + [m]) == Apply(ApplyAll(y, ms), m)
    decreases |ms|
  {
    if |ms| == 0 {
      assert ms + [m] == [m] + [];
      RunOneFirst(y, m, []);
    } else {
      RunThen(Apply(y, ms[0]), ms[1..], m);
      RunOneFirst(y, ms[0], ms[1..] + [m]);
      assert ms + [m] == [ms[0]] + (ms[1..] + [m]);
    }
  }

  /** Every tidy yard is reached from elements of which nothing is known. */
  lemma {:induction false} Reach<T>(all: set<T>, y: Yard<T>) returns (ms: seq<Macro<T>>)
    requires Tidy(all, y) && RingsDistinct(y)
    ensures AllLegal(Yard(map[], all, {}), ms) && ApplyAll(Yard(map[], all, {}), ms) == y
    decreases |y.freed|, |all - y.loose|
  {
    if e :| e in y.freed {
      var w := BeforeDelete(all, y, e);
      ms := Reach(all, w);
      RunThen(Yard(map[], all, {}), ms, Delete(e));
      ms := ms + [Delete(e)];
    } else if s :| s in y.rings && y.rings[s] != [] {
      var e := Last(y.rings[s]);
      var w := BeforeInsert(all, y, s);
      ms := Reach(all, w);
      RunThen(Yard(map[], all, {}), ms, InsertTail(s, e));
      ms := ms + [InsertTail(s, e)];
    } else if s :| s in y.rings {
      var w := BeforeInit(all, y, s);
      ms := Reach(all, w);
      RunThen(Yard(map[], all, {}), ms, Init(s));
      ms := ms + [Init(s)];
    } else {
      assert y.rings == map[] && y.loose == all && y.freed == {};
      ms := [];
    }
  }

  lemma OneMoreLoose<T>(all: set<T>, loose: set<T>, e: T)
    requires e in all && e !in loose
    ensures |all - (loose + {e})| < |all - loose| && loose + {e} - {e} == loose && loose + {e} - {e} + {} == loose
  {
    assert all - loose == (all - (loose + {e})) + {e};
  }

  lemma BeforeDelete<T>(all: set<T>, y: Yard<T>, e: T) returns (w: Yard<T>)
    requires Tidy(all, y) && RingsDistinct(y) && e in y.freed
    ensures Tidy(all, w) && RingsDistinct(w) && Legal(w, Delete(e)) && Apply(w, Delete(e)) == y
    ensures |w.freed| < |y.freed|
  {
    w := Yard(y.rings[e := []], y.loose, y.freed - {e});
    assert e !in y.rings by {
      assert e in y.rings ==> e in Whole(y, e);
    }
    assert Whole(w, e) == [e] && forall t :: t in y.rings ==> Whole(w, t) == Whole(y, t);
    assert Tidy(all, w) by {
      forall x | x in all
        ensures x in w.loose || x in w.freed || On(w, x)
      {
        if x == e {
          assert x in Whole(w, e);
        } else if On(y, x) {
          assert x in Whole(w, Home(y, x));
        }
      }
    }
    assert e in Whole(w, e);
    OwnHome(all, w, e);
    assert Gap([e], 0) == [] && w.rings - {e} == y.rings;
  }

  lemma BeforeInsert<T>(all: set<T>, y: Yard<T>, s: T) returns (w: Yard<T>)
    requires Tidy(all, y) && RingsDistinct(y) && s in y.rings && y.rings[s] != []
    ensures var e := Last(y.rings[s]);
      Tidy(all, w) && RingsDistinct(w) && Legal(w, InsertTail(s, e)) && Apply(w, InsertTail(s, e)) == y
    ensures w.freed == y.freed && |all - w.loose| < |all - y.loose|
  {
    var xs := y.rings[s];
    var e, n := Last(xs), |xs| - 1;
    assert e in xs && e in Whole(y, s) && e in all && e !in y.loose;
    w := Yard(y.rings[s := xs[..n]], y.loose + {e}, y.freed);
    NameNotInside(y, s);
    assert xs == xs[..n] + [e];
    assert e !in y.rings by {
      assert e in y.rings ==> e in Whole(y, e);
    }
    ShorterTidy(all, y, s, w);
    OneMoreLoose(all, y.loose, e);
    assert w.rings - {e} == w.rings && w.rings[s := xs] == y.rings;
  }

  lemma ShorterTidy<T>(all: set<T>, y: Yard<T>, s: T, w: Yard<T>)
    requires Tidy(all, y) && RingsDistinct(y) && s in y.rings && y.rings[s] != []
    requires w.rings == y.rings[s := y.rings[s][..|y.rings[s]| - 1]]
    requires w.loose == y.loose + {Last(y.rings[s])} && w.freed == y.freed
    ensures Tidy(all, w) && RingsDistinct(w)
  {
    var c, d, e := Whole(y, s), Whole(w, s), Last(y.rings[s]);
    assert c == d + [e] && c[|d|] == e && e in c;
    assert e !in d by {
      assert Distinct(c) && forall i :: 0 <= i < |d| ==> d[i] == c[i];
    }
    assert forall x :: x in c <==> x in d || x == e;
    forall t | t in w.rings
      ensures t != s ==> Whole(w, t) == Whole(y, t)
      ensures Distinct(Whole(w, t))
    {
      assert Distinct(Whole(y, t)) && (t == s ==> forall i :: 0 <= i < |d| ==> d[i] == c[i]);
    }
    forall x | x in all
      ensures x in w.loose || x in w.freed || On(w, x)
    {
      if On(y, x) && x != e {
        assert x in Whole(w, Home(y, x));
      }
    }
  }

  lemma FewerTidy<T>(all: set<T>, y: Yard<T>, s: T, w: Yard<T>)
    requires Tidy(all, y) && RingsDistinct(y) && s in y.rings && y.rings[s] == []
    requires w == Yard(y.rings - {s}, y.loose + {s}, y.freed)
    ensures Tidy(all, w) && RingsDistinct(w) && s in all && s !in y.loose
  {
    assert Whole(y, s) == [s] && s in Whole(y, s);
    assert forall t :: t in w.rings ==> Whole(w, t) == Whole(y, t);
    forall x | x in all
      ensures x in w.loose || x in w.freed || On(w, x)
    {
      if On(y, x) && x != s {
        assert x in Whole(w, Home(y, x));
      }
    }
  }

  lemma BeforeInit<T>(all: set<T>, y: Yard<T>, s: T) returns (w: Yard<T>)
    requires Tidy(all, y) && RingsDistinct(y) && s in y.rings && y.rings[s] == []
    ensures Tidy(all, w) && RingsDistinct(w) && Legal(w, Init(s)) && Apply(w, Init(s)) == y
    ensures w.freed == y.freed && |all - w.loose| < |all - y.loose|
  {
    w := Yard(y.rings - {s}, y.loose + {s}, y.freed);
    FewerTidy(all, y, s, w);
    OneMoreLoose(all, y.loose, s);
    assert w.rings[s := []] == y.rings;
  }

  /** What runs lead to: a yard is the outcome of some legal run if and only if it is tidy. */
  lemma ReachableIsTidy<T>(h: Store<T>, y: Yard<T>)
    ensures (exists ms :: AllLegal(Yard(map[], h.Keys, {}), ms) && ApplyAll(Yard(map[], h.Keys, {}), ms) == y)
      <==> Tidy(h.Keys, y) && RingsDistinct(y)
  {
    var start := Yard(map[], h.Keys, {});
    if Tidy(h.Keys, y) && RingsDistinct(y) {
      var ms := Reach(h.Keys, y);
    }
    if ms :| AllLegal(start, ms) && ApplyAll(start, ms) == y {
      RunKeeps(h, start, ms);
      RingsAreDistinct(DoAll(h, ms), y);
    }
  }
}
