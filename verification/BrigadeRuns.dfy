/**
 * Whole runs of brigade and bucket macros, each with the consistency check it ends with. The macros
 * take pointers only, and what is asked of the caller can be checked before each call.
 */
module BrigadeRuns {
  import opened Links
  import Ops = RingOps
  import Check = RingCheck
  import Runs = RingRuns

  /**
   * Init is APR_BUCKET_INIT, and APR_RING_INIT of the list of a brigade. A brigade b is named by its
   * sentinel; Before and After are APR_BUCKET_INSERT_BEFORE and _AFTER.
   */
  datatype Macro<T> =
    | Init(x: T)
    | InsertHead(b: T, e: T)
    | InsertTail(b: T, e: T)
    | Concat(a: T, b: T)
    | Prepend(a: T, b: T)
    | Before(a: T, e: T)
    | After(a: T, e: T)
    | Remove(e: T)
    | Delete(e: T)

  /** The ring macro that m expands to. */
  function CallOf<T>(m: Macro<T>): Runs.Call<T> {
    match m
    case Init(x) => Runs.ElemInit(x)
    case InsertHead(b, e) => Runs.SpliceAfter(b, e, e)
    case InsertTail(b, e) => Runs.SpliceBefore(b, e, e)
    case Concat(a, b) => Runs.Concat(a, b)
    case Prepend(a, b) => Runs.Prepend(a, b)
    case Before(a, e) => Runs.SpliceBefore(a, e, e)
    case After(a, e) => Runs.SpliceAfter(a, e, e)
    case Remove(e) => Runs.Unsplice(e, e)
    case Delete(e) => Runs.Unsplice(e, e)
  }

  /** Where the check that m ends with starts; INIT, REMOVE and apr_bucket_delete end with none. */
  function CheckedFrom<T>(m: Macro<T>): set<T> {
    match m
    case InsertHead(b, _) => {b}
    case InsertTail(b, _) => {b}
    case Concat(a, _) => {a}
    case Prepend(a, _) => {a}
    case Before(a, _) => {a}
    case After(a, _) => {a}
    case _ => {}
  }

  /**
   * What a program knows of its elements. rings: every ring by one of its members, a brigade by its
   * sentinel, an initialised bucket by itself, with the other members in order. loose: on no ring,
   * with any pointers whatever. freed: deleted.
   */
  datatype Yard<T> = Yard(rings: map<T, seq<T>>, loose: set<T>, freed: set<T>)

  ghost function Whole<T>(y: Yard<T>, s: T): seq<T>
    requires s in y.rings
  {
    [s] + y.rings[s]
  }

  ghost predicate On<T>(y: Yard<T>, x: T) {
    exists s :: s in y.rings && x in Whole(y, s)
  }

  /** e can be inserted: it is loose, or alone on its ring. */
  ghost predicate Single<T>(y: Yard<T>, e: T) {
    e in y.loose || (e in y.rings && y.rings[e] == [])
  }

  ghost predicate Legal<T>(y: Yard<T>, m: Macro<T>) {
    match m
    case Init(x) => x in y.loose || x in y.rings
    case InsertHead(b, e) => b in y.rings && Single(y, e) && e != b
    case InsertTail(b, e) => b in y.rings && Single(y, e) && e != b
    case Concat(a, b) => a in y.rings && b in y.rings && a != b
    case Prepend(a, b) => a in y.rings && b in y.rings && a != b
    case Before(a, e) => On(y, a) && Single(y, e) && e != a
    case After(a, e) => On(y, a) && Single(y, e) && e != a
    case Remove(e) => On(y, e)
    case Delete(e) => On(y, e)
  }

  ghost function Home<T>(y: Yard<T>, x: T): (s: T)
    requires On(y, x)
    ensures s in y.rings && x in Whole(y, s)
  {
    var s :| s in y.rings && x in Whole(y, s);
    s
  }

  ghost function Index<T>(c: seq<T>, x: T): (i: nat)
    requires x in c
    ensures i < |c| && c[i] == x
  {
    var i: nat :| i < |c| && c[i] == x;
    i
  }

  /** e, which was single, becomes one of the members xs of the ring named s. */
  ghost function Put<T>(y: Yard<T>, s: T, e: T, xs: seq<T>): Yard<T> {
    Yard((y.rings - {e})[s := xs], y.loose - {e}, y.freed)
  }

  /** Position i of c is vacated. */
  ghost function Gap<T>(c: seq<T>, i: nat): seq<T>
    requires i < |c|
  {
    c[..i] + c[i + 1..]
  }

  /** e leaves the ring named s, which is named by its first remaining member, if any, from now on. */
  ghost function RingsLess<T>(y: Yard<T>, s: T, e: T): map<T, seq<T>>
    requires s in y.rings && e in Whole(y, s)
  {
    var rest := Gap(Whole(y, s), Index(Whole(y, s), e));
    if rest == [] then y.rings - {s} else (y.rings - {s})[rest[0] := rest[1..]]
  }

  ghost function Apply<T>(y: Yard<T>, m: Macro<T>): Yard<T>
    requires Legal(y, m)
  {
    match m
    case Init(x) =>
      var others := if x in y.rings then set z | z in y.rings[x] else {};
      Yard(y.rings[x := []], y.loose - {x} + others, y.freed)
    case InsertHead(b, e) => Put(y, b, e, [e] + y.rings[b])
    case InsertTail(b, e) => Put(y, b, e, y.rings[b] + [e])
    case Concat(a, b) => y.(rings := y.rings[a := y.rings[a] + y.rings[b]][b := []])
    case Prepend(a, b) => y.(rings := y.rings[a := y.rings[b] + y.rings[a]][b := []])
    case Before(a, e) =>
      var s := Home(y, a);
      var i := Index(Whole(y, s), a);
      Put(y, s, e, if a == s then y.rings[s] + [e] else y.rings[s][..i - 1] + [e] + y.rings[s][i - 1..])
    case After(a, e) =>
      var s := Home(y, a);
      var i := Index(Whole(y, s), a);
      Put(y, s, e, y.rings[s][..i] + [e] + y.rings[s][i..])
    case Remove(e) =>
      var s := Home(y, e);
      if y.rings[s] == [] then y else Yard(RingsLess(y, s, e), y.loose + {e}, y.freed)
    case Delete(e) =>
      var s := Home(y, e);
      Yard(RingsLess(y, s, e), y.loose, y.freed + {e})
  }

  // ---- the invariant ----

  /** Every element is on one ring, or loose, or freed. */
  ghost predicate Tidy<T>(all: set<T>, y: Yard<T>) {
    && (forall s, t :: s in y.rings && t in y.rings && s != t ==> Disjoint(Whole(y, s), Whole(y, t)))
    && (forall s, x :: s in y.rings && x in Whole(y, s) ==> x in all && x !in y.loose && x !in y.freed)
    && y.loose !! y.freed && y.loose <= all && y.freed <= all
    && (forall x :: x in all ==> x in y.loose || x in y.freed || On(y, x))
  }

  ghost predicate AllRings<T>(h: Store<T>, y: Yard<T>) {
    forall s :: s in y.rings ==> Ring(h, Whole(y, s))
  }

  ghost predicate Inv<T>(h: Store<T>, y: Yard<T>) {
    AllRings(h, y) && Tidy(h.Keys, y)
  }

  lemma SingleApart<T>(all: set<T>, y: Yard<T>, s: T, e: T)
    requires Tidy(all, y) && s in y.rings && Single(y, e) && e != s
    ensures e in all && e !in Whole(y, s)
  {
    if e in y.rings {
      assert e in Whole(y, e);
    }
  }

  lemma NameNotInside<T>(y: Yard<T>, s: T)
    requires s in y.rings && Distinct(Whole(y, s))
    ensures s !in y.rings[s]
  {
    forall i | 0 <= i < |y.rings[s]|
      ensures y.rings[s][i] != s
    {
      assert Whole(y, s)[i + 1] != Whole(y, s)[0];
    }
  }

  lemma PutTidy<T>(all: set<T>, y: Yard<T>, s: T, e: T, xs: seq<T>)
    requires Tidy(all, y) && s in y.rings && Single(y, e) && e != s
    requires forall x :: x in [s] + xs <==> x in Whole(y, s) || x == e
    ensures Tidy(all, Put(y, s, e, xs))
  {
    var z := Put(y, s, e, xs);
    forall t | t in z.rings && t != s
      ensures t in y.rings && Whole(z, t) == Whole(y, t) && e !in Whole(y, t)
    {
      SingleApart(all, y, t, e);
    }
    assert Whole(z, s) == [s] + xs;
    SingleApart(all, y, s, e);
    forall x | x in all
      ensures x in z.loose || x in z.freed || On(z, x)
    {
      if x == e {
        assert x in Whole(z, s);
      } else if On(y, x) {
        var t := Home(y, x);
        assert t != e && x in Whole(z, t);
      }
    }
  }

  lemma PutRings<T>(h: Store<T>, k: Store<T>, y: Yard<T>, s: T, e: T, xs: seq<T>)
    requires Inv(h, y) && s in y.rings && Single(y, e) && e != s && k.Keys == h.Keys
    requires Ring(k, [s] + xs)
    requires forall x :: x in h && x !in Whole(y, s) && x != e ==> k[x] == h[x]
    ensures AllRings(k, Put(y, s, e, xs))
  {
    var z := Put(y, s, e, xs);
    forall t | t in z.rings
      ensures Ring(k, Whole(z, t))
    {
      if t != s {
        SingleApart(h.Keys, y, t, e);
        RingFrame(h, k, Whole(y, t));
        assert Whole(z, t) == Whole(y, t);
      }
    }
  }

  /** Any single element goes in at position p of any ring. */
  lemma StepPut<T>(h: Store<T>, y: Yard<T>, s: T, p: nat, e: T, xs: seq<T>) returns (k: Store<T>)
    requires Inv(h, y) && s in y.rings && Single(y, e) && e != s && 1 <= p <= |Whole(y, s)|
    requires [s] + xs == Whole(y, s)[..p] + [e] + Whole(y, s)[p..]
    ensures var c := Whole(y, s);
      && e in h && c[p - 1] in h && h[c[p - 1]].next in h && Ops.At(c, p) in h && h[Ops.At(c, p)].prev in h
      && k == Ops.SpliceBefore(h, Ops.At(c, p), e, e) == Ops.SpliceAfter(h, c[p - 1], e, e)
    ensures k.Keys == h.Keys && Ring(k, [s] + xs) && Inv(k, Put(y, s, e, xs))
  {
    var c := Whole(y, s);
    SingleApart(h.Keys, y, s, e);
    k := Ops.SpliceAnywhere(h, c, p, [e]);
    assert Inv(k, Put(y, s, e, xs)) by {
      assert c == c[..p] + c[p..];
      PutTidy(h.Keys, y, s, e, xs);
      PutRings(h, k, y, s, e, xs);
    }
  }

  // ---- the rings of two names exchange their members ----

  lemma JoinTidy<T>(all: set<T>, y: Yard<T>, a: T, b: T, xs: seq<T>)
    requires Tidy(all, y) && a in y.rings && b in y.rings && a != b && Distinct(Whole(y, b))
    requires forall x :: x in xs <==> x in y.rings[a] || x in y.rings[b]
    ensures Tidy(all, y.(rings := y.rings[a := xs][b := []]))
  {
    var z := y.(rings := y.rings[a := xs][b := []]);
    forall t | t in z.rings && t != a && t != b
      ensures Whole(z, t) == Whole(y, t)
    {
    }
    assert Whole(z, a) == [a] + xs && Whole(z, b) == [b];
    NameNotInside(y, b);
    assert b in Whole(y, b) && a in Whole(y, a);
    assert forall x :: x in Whole(z, a) ==> x in Whole(y, a) || x in Whole(y, b);
    forall x | x in all
      ensures x in z.loose || x in z.freed || On(z, x)
    {
      if On(y, x) {
        var t := Home(y, x);
        assert x in Whole(z, t) || x in Whole(z, a);
      }
    }
  }

  lemma JoinRings<T>(h: Store<T>, k: Store<T>, y: Yard<T>, a: T, b: T, xs: seq<T>)
    requires Inv(h, y) && a in y.rings && b in y.rings && a != b && k.Keys == h.Keys
    requires Ring(k, [a] + xs) && Ring(k, [b] + [])
    requires forall x :: x in h && x !in Whole(y, a) + Whole(y, b) ==> k[x] == h[x]
    ensures AllRings(k, y.(rings := y.rings[a := xs][b := []]))
  {
    var z := y.(rings := y.rings[a := xs][b := []]);
    forall t | t in z.rings
      ensures Ring(k, Whole(z, t))
    {
      if t != a && t != b {
        RingFrame(h, k, Whole(y, t));
        assert Whole(z, t) == Whole(y, t);
      }
    }
  }

  lemma ConcatStore<T>(h: Store<T>, y: Yard<T>, a: T, b: T) returns (k: Store<T>)
    requires Inv(h, y) && a in y.rings && b in y.rings && a != b
    ensures Ops.HeadsReady(h, a, b) && k == Ops.Concat(h, a, b) && k.Keys == h.Keys
    ensures Ring(k, [a] + (y.rings[a] + y.rings[b])) && Ring(k, [b] + [])
    ensures forall x :: x in h && x !in Whole(y, a) + Whole(y, b) ==> k[x] == h[x]
  {
    assert Ring(h, Whole(y, a)) && Ring(h, Whole(y, b));
    Ops.ConcatHeads(h, a, y.rings[a], b, y.rings[b]);
    k := Ops.Concat(h, a, b);
  }

  lemma ConcatInv<T>(h: Store<T>, y: Yard<T>, a: T, b: T) returns (k: Store<T>)
    requires Inv(h, y) && Legal(y, Concat(a, b))
    ensures Ops.HeadsReady(h, a, b) && k == Ops.Concat(h, a, b) && k.Keys == h.Keys
    ensures Passes(k, a) && Inv(k, Apply(y, Concat(a, b)))
  {
    k := ConcatStore(h, y, a, b);
    assert Inv(k, y.(rings := y.rings[a := y.rings[a] + y.rings[b]][b := []])) by {
      assert Ring(h, Whole(y, b));
      JoinTidy(h.Keys, y, a, b, y.rings[a] + y.rings[b]);
      JoinRings(h, k, y, a, b, y.rings[a] + y.rings[b]);
    }
    assert Passes(k, a) by {
      CheckedRing(k, a, y.rings[a] + y.rings[b]);
      assert a in [a] + (y.rings[a] + y.rings[b]);
    }
  }

  lemma PrependStore<T>(h: Store<T>, y: Yard<T>, a: T, b: T) returns (k: Store<T>)
    requires Inv(h, y) && a in y.rings && b in y.rings && a != b
    ensures Ops.HeadsReady(h, a, b) && k == Ops.Prepend(h, a, b) && k.Keys == h.Keys
    ensures Ring(k, [a] + (y.rings[b] + y.rings[a])) && Ring(k, [b] + [])
    ensures forall x :: x in h && x !in Whole(y, a) + Whole(y, b) ==> k[x] == h[x]
  {
    assert Ring(h, Whole(y, a)) && Ring(h, Whole(y, b));
    Ops.PrependHeads(h, a, y.rings[a], b, y.rings[b]);
    k := Ops.Prepend(h, a, b);
  }

  lemma PrependInv<T>(h: Store<T>, y: Yard<T>, a: T, b: T) returns (k: Store<T>)
    requires Inv(h, y) && Legal(y, Prepend(a, b))
    ensures Ops.HeadsReady(h, a, b) && k == Ops.Prepend(h, a, b) && k.Keys == h.Keys
    ensures Passes(k, a) && Inv(k, Apply(y, Prepend(a, b)))
  {
    k := PrependStore(h, y, a, b);
    assert Inv(k, y.(rings := y.rings[a := y.rings[b] + y.rings[a]][b := []])) by {
      assert Ring(h, Whole(y, b));
      JoinTidy(h.Keys, y, a, b, y.rings[b] + y.rings[a]);
      JoinRings(h, k, y, a, b, y.rings[b] + y.rings[a]);
    }
    assert Passes(k, a) by {
      CheckedRing(k, a, y.rings[b] + y.rings[a]);
      assert a in [a] + (y.rings[b] + y.rings[a]);
    }
  }

  // ---- one macro ----

  /** The check passes, and it never reads a pointer that leads nowhere. */
  ghost predicate Passes<T>(h: Store<T>, x: T) {
    x in h && Check.Walk(h, [x]).Passed?
  }

  /** A macro dereferences entries only, keeps the invariant, and the check it ends with passes. */
  ghost predicate StepOk<T>(h: Store<T>, y: Yard<T>, m: Macro<T>)
    requires Legal(y, m)
  {
    && Runs.Ready(h, CallOf(m))
    && Inv(Runs.Do(h, CallOf(m)), Apply(y, m))
    && Runs.Do(h, CallOf(m)).Keys == h.Keys
    && forall x :: x in CheckedFrom(m) ==> Passes(Runs.Do(h, CallOf(m)), x)
  }

  lemma CheckedRing<T>(h: Store<T>, s: T, xs: seq<T>)
    requires Ring(h, [s] + xs)
    ensures forall x :: x in [s] + xs ==> Passes(h, x)
  {
    var c := [s] + xs;
    forall x | x in c
      ensures Passes(h, x)
    {
      Check.CheckPassesOnRing(h, c, Index(c, x));
    }
  }

  lemma InsertHeadInv<T>(h: Store<T>, y: Yard<T>, b: T, e: T) returns (k: Store<T>)
    requires Inv(h, y) && Legal(y, InsertHead(b, e))
    ensures b in h && e in h && h[b].next in h && k == Ops.SpliceAfter(h, b, e, e) && k.Keys == h.Keys
    ensures Passes(k, b) && Inv(k, Put(y, b, e, [e] + y.rings[b]))
  {
    BesideSeqs(b, y.rings[b], 0, e);
    k := StepPut(h, y, b, 1, e, [e] + y.rings[b]);
    assert Passes(k, b) by {
      CheckedRing(k, b, [e] + y.rings[b]);
      assert b in [b] + ([e] + y.rings[b]);
    }
  }

  lemma StepInsertHead<T>(h: Store<T>, y: Yard<T>, b: T, e: T)
    requires Inv(h, y) && Legal(y, InsertHead(b, e))
    ensures StepOk(h, y, InsertHead(b, e))
  {
    var k := InsertHeadInv(h, y, b, e);
  }

  lemma InsertTailInv<T>(h: Store<T>, y: Yard<T>, b: T, e: T) returns (k: Store<T>)
    requires Inv(h, y) && Legal(y, InsertTail(b, e))
    ensures b in h && e in h && h[b].prev in h && k == Ops.SpliceBefore(h, b, e, e) && k.Keys == h.Keys
    ensures Passes(k, b) && Inv(k, Put(y, b, e, y.rings[b] + [e]))
  {
    BesideSeqs(b, y.rings[b], 0, e);
    k := StepPut(h, y, b, |Whole(y, b)|, e, y.rings[b] + [e]);
    assert Passes(k, b) by {
      CheckedRing(k, b, y.rings[b] + [e]);
      assert b in [b] + (y.rings[b] + [e]);
    }
  }

  lemma StepInsertTail<T>(h: Store<T>, y: Yard<T>, b: T, e: T)
    requires Inv(h, y) && Legal(y, InsertTail(b, e))
    ensures StepOk(h, y, InsertTail(b, e))
  {
    var k := InsertTailInv(h, y, b, e);
  }

  lemma StepConcat<T>(h: Store<T>, y: Yard<T>, a: T, b: T)
    requires Inv(h, y) && Legal(y, Concat(a, b))
    ensures StepOk(h, y, Concat(a, b))
  {
    var k := ConcatInv(h, y, a, b);
  }

  lemma StepPrepend<T>(h: Store<T>, y: Yard<T>, a: T, b: T)
    requires Inv(h, y) && Legal(y, Prepend(a, b))
    ensures StepOk(h, y, Prepend(a, b))
  {
    var k := PrependInv(h, y, a, b);
  }

  /** Insertion beside the element at position i of a ring, as its other members see it. */
  lemma BesideSeqs<T>(s: T, ys: seq<T>, i: nat, e: T)
    requires i <= |ys|
    ensures var c := [s] + ys;
      && [s] + (ys[..i] + [e] + ys[i..]) == c[..i + 1] + [e] + c[i + 1..]
      && [s] + ([e] + ys) == c[..1] + [e] + c[1..]
      && [s] + (ys + [e]) == c[..|c|] + [e] + c[|c|..]
      && (i > 0 ==> [s] + (ys[..i - 1] + [e] + ys[i - 1..]) == c[..i] + [e] + c[i..])
  {
  }

  lemma StillThere<T>(c: seq<T>, p: nat, e: T, x: T)
    requires p <= |c| && x in c
    ensures x in c[..p] + [e] + c[p..]
  {
    assert c == c[..p] + c[p..];
  }

  /** The gap before the element at position i of the ring named s. */
  lemma GapBefore<T>(s: T, ys: seq<T>, i: nat, e: T) returns (p: nat, xs: seq<T>)
    requires i <= |ys|
    ensures var c := [s] + ys;
      && 1 <= p <= |c| && Ops.At(c, p) == c[i] && [s] + xs == c[..p] + [e] + c[p..] && c[i] in [s] + xs
      && xs == if i == 0 then ys + [e] else ys[..i - 1] + [e] + ys[i - 1..]
  {
    var c := [s] + ys;
    p := if i == 0 then |c| else i;
    xs := if i == 0 then ys + [e] else ys[..i - 1] + [e] + ys[i - 1..];
    BesideSeqs(s, ys, i, e);
    StillThere(c, p, e, c[i]);
  }

  lemma BeforeInv<T>(h: Store<T>, y: Yard<T>, a: T, e: T) returns (xs: seq<T>)
    requires Inv(h, y) && Legal(y, Before(a, e))
    ensures a in h && e in h && h[a].prev in h && Apply(y, Before(a, e)) == Put(y, Home(y, a), e, xs)
    ensures var k := Ops.SpliceBefore(h, a, e, e);
      k.Keys == h.Keys && Ring(k, [Home(y, a)] + xs) && a in [Home(y, a)] + xs && Inv(k, Put(y, Home(y, a), e, xs))
  {
    var s := Home(y, a);
    var i := Index(Whole(y, s), a);
    assert i == 0 <==> a == s by {
      assert Ring(h, Whole(y, s));
    }
    var p;
    p, xs := GapBefore(s, y.rings[s], i, e);
    NotName(h.Keys, y, s, a, e);
    var k := StepPut(h, y, s, p, e, xs);
  }

  lemma StepBefore<T>(h: Store<T>, y: Yard<T>, a: T, e: T)
    requires Inv(h, y) && Legal(y, Before(a, e))
    ensures StepOk(h, y, Before(a, e))
  {
    var xs := BeforeInv(h, y, a, e);
    CheckedRing(Ops.SpliceBefore(h, a, e, e), Home(y, a), xs);
  }

  lemma AfterInv<T>(h: Store<T>, y: Yard<T>, a: T, e: T) returns (xs: seq<T>)
    requires Inv(h, y) && Legal(y, After(a, e))
    ensures a in h && e in h && h[a].next in h && Apply(y, After(a, e)) == Put(y, Home(y, a), e, xs)
    ensures var k := Ops.SpliceAfter(h, a, e, e);
      k.Keys == h.Keys && Ring(k, [Home(y, a)] + xs) && a in [Home(y, a)] + xs && Inv(k, Put(y, Home(y, a), e, xs))
  {
    var s := Home(y, a);
    var c := Whole(y, s);
    var i := Index(c, a);
    xs := y.rings[s][..i] + [e] + y.rings[s][i..];
    BesideSeqs(s, y.rings[s], i, e);
    NotName(h.Keys, y, s, a, e);
    StillThere(c, i + 1, e, a);
    var k := StepPut(h, y, s, i + 1, e, xs);
  }

  lemma StepAfter<T>(h: Store<T>, y: Yard<T>, a: T, e: T)
    requires Inv(h, y) && Legal(y, After(a, e))
    ensures StepOk(h, y, After(a, e))
  {
    var xs := AfterInv(h, y, a, e);
    CheckedRing(Ops.SpliceAfter(h, a, e, e), Home(y, a), xs);
  }

  /** A single element other than a does not name the ring of a. */
  lemma NotName<T>(all: set<T>, y: Yard<T>, s: T, a: T, e: T)
    requires Tidy(all, y) && s in y.rings && a in Whole(y, s) && Single(y, e) && e != a
    ensures e != s
  {
    assert s in Whole(y, s);
  }

  // ---- INIT ----

  lemma InitTidy<T>(all: set<T>, y: Yard<T>, x: T)
    requires Tidy(all, y) && Legal(y, Init(x)) && (x in y.rings ==> Distinct(Whole(y, x)))
    ensures Tidy(all, Apply(y, Init(x)))
    ensures forall t :: t in y.rings && t != x ==> x !in Whole(y, t)
  {
    var z := Apply(y, Init(x));
    if x in y.rings {
      NameNotInside(y, x);
      assert x in Whole(y, x) && forall w :: w in y.rings[x] ==> w in Whole(y, x);
    }
    assert Whole(z, x) == [x];
    forall t | t in z.rings && t != x
      ensures t in y.rings && Whole(z, t) == Whole(y, t) && x !in Whole(y, t)
    {
    }
    forall w | w in all
      ensures w in z.loose || w in z.freed || On(z, w)
    {
      if w == x {
        assert w in Whole(z, x);
      } else if On(y, w) {
        var t := Home(y, w);
        assert t == x || w in Whole(z, t);
      }
    }
  }

  lemma StepInit<T>(h: Store<T>, y: Yard<T>, x: T)
    requires Inv(h, y) && Legal(y, Init(x))
    ensures StepOk(h, y, Init(x))
  {
    assert x in h by {
      assert x in y.rings ==> x in Whole(y, x);
    }
    assert Tidy(h.Keys, Apply(y, Init(x))) && forall t :: t in y.rings && t != x ==> x !in Whole(y, t) by {
      assert x in y.rings ==> Ring(h, Whole(y, x));
      InitTidy(h.Keys, y, x);
    }
    InitRings(h, y, x);
  }

  lemma InitRings<T>(h: Store<T>, y: Yard<T>, x: T)
    requires AllRings(h, y) && Legal(y, Init(x)) && x in h
    requires forall t :: t in y.rings && t != x ==> x !in Whole(y, t)
    ensures AllRings(Ops.ElemInit(h, x), Apply(y, Init(x)))
  {
    var k, z := Ops.ElemInit(h, x), Apply(y, Init(x));
    Ops.ElemInitRing(h, x);
    forall t | t in z.rings
      ensures Ring(k, Whole(z, t))
    {
      if t != x {
        RingFrame(h, k, Whole(y, t));
        assert Whole(z, t) == Whole(y, t);
      } else {
        assert Whole(z, x) == [x];
      }
    }
  }

  // ---- REMOVE and apr_bucket_delete ----

  lemma GapMembers<T>(c: seq<T>, i: nat, x: T)
    requires Distinct(c) && i < |c|
    ensures x in Gap(c, i) <==> x in c && x != c[i]
  {
    assert c == c[..i] + [c[i]] + c[i + 1..];
  }

  lemma LessRest<T>(y: Yard<T>, s: T, e: T)
    requires s in y.rings && e in Whole(y, s) && Distinct(Whole(y, s))
    requires forall t :: t in y.rings && t != s ==> Disjoint(Whole(y, t), Whole(y, s))
    ensures var rest, z := Gap(Whole(y, s), Index(Whole(y, s), e)), RingsLess(y, s, e);
      && (forall x :: x in rest <==> x in Whole(y, s) && x != e)
      && (rest != [] ==> rest[0] in z && [rest[0]] + z[rest[0]] == rest)
      && (forall t :: t in z && (rest == [] || t != rest[0]) ==> t in y.rings && t != s && z[t] == y.rings[t])
      && (forall t :: t in y.rings && t != s ==> t in z && (rest != [] ==> t != rest[0]))
  {
    var c := Whole(y, s);
    var rest := Gap(c, Index(c, e));
    forall x
      ensures x in rest <==> x in c && x != e
    {
      GapMembers(c, Index(c, e), x);
    }
    forall t | t in y.rings && t != s
      ensures rest != [] ==> t != rest[0]
    {
      assert t in Whole(y, t);
    }
  }

  lemma LessTidy<T>(all: set<T>, y: Yard<T>, s: T, e: T, z: Yard<T>)
    requires Tidy(all, y) && s in y.rings && e in Whole(y, s) && Distinct(Whole(y, s))
    requires z.rings == RingsLess(y, s, e)
    requires (z.loose == y.loose + {e} && z.freed == y.freed) || (z.loose == y.loose && z.freed == y.freed + {e})
    ensures Tidy(all, z)
  {
    LessRest(y, s, e);
    var rest := Gap(Whole(y, s), Index(Whole(y, s), e));
    assert rest != [] ==> Whole(z, rest[0]) == rest;
    forall t | t in z.rings && (rest == [] || t != rest[0])
      ensures t in y.rings && t != s && Whole(z, t) == Whole(y, t)
    {
    }
    forall x | x in all
      ensures x in z.loose || x in z.freed || On(z, x)
    {
      if On(y, x) && x != e {
        var t := Home(y, x);
        if t == s {
          assert x in Whole(z, rest[0]);
        } else {
          assert x in Whole(z, t);
        }
      }
    }
  }

  lemma LessRings<T>(h: Store<T>, y: Yard<T>, e: T, z: Yard<T>) returns (k: Store<T>)
    requires Inv(h, y) && On(y, e) && z.rings == RingsLess(y, Home(y, e), e)
    ensures e in h && h[e].prev in h && h[e].next in h && k == Ops.Unsplice(h, e, e) && k.Keys == h.Keys
    ensures y.rings[Home(y, e)] == [] ==> k == h
    ensures AllRings(k, z)
  {
    var s := Home(y, e);
    var c := Whole(y, s);
    assert Ring(h, c);
    k := Ops.RemoveAt(h, c, Index(c, e));
    LessRest(y, s, e);
    var rest := Gap(c, Index(c, e));
    forall t | t in z.rings
      ensures Ring(k, Whole(z, t))
    {
      if rest != [] && t == rest[0] {
        assert Whole(z, t) == rest;
      } else {
        assert Ring(h, Whole(y, t)) && Whole(z, t) == Whole(y, t);
        RingFrame(h, k, Whole(y, t));
      }
    }
  }

  lemma LessInv<T>(h: Store<T>, y: Yard<T>, e: T, z: Yard<T>) returns (k: Store<T>)
    requires Inv(h, y) && On(y, e) && z.rings == RingsLess(y, Home(y, e), e)
    requires (z.loose == y.loose + {e} && z.freed == y.freed) || (z.loose == y.loose && z.freed == y.freed + {e})
    ensures e in h && h[e].prev in h && h[e].next in h && k == Ops.Unsplice(h, e, e) && k.Keys == h.Keys
    ensures y.rings[Home(y, e)] == [] ==> k == h
    ensures Inv(k, z)
  {
    var s := Home(y, e);
    k := LessRings(h, y, e, z);
    assert Tidy(h.Keys, z) by {
      assert Ring(h, Whole(y, s));
      LessTidy(h.Keys, y, s, e, z);
    }
  }

  lemma RemoveInv<T>(h: Store<T>, y: Yard<T>, e: T) returns (k: Store<T>)
    requires Inv(h, y) && On(y, e)
    ensures e in h && h[e].prev in h && h[e].next in h && k == Ops.Unsplice(h, e, e) && k.Keys == h.Keys
    ensures Inv(k, Apply(y, Remove(e)))
  {
    var z := Yard(RingsLess(y, Home(y, e), e), y.loose + {e}, y.freed);
    k := LessInv(h, y, e, z);
    assert Apply(y, Remove(e)) == if y.rings[Home(y, e)] == [] then y else z;
  }

  lemma StepRemove<T>(h: Store<T>, y: Yard<T>, e: T)
    requires Inv(h, y) && On(y, e)
    ensures StepOk(h, y, Remove(e))
  {
    var k := RemoveInv(h, y, e);
    assert Runs.Do(h, CallOf(Remove(e))) == k;
  }

  lemma DeleteInv<T>(h: Store<T>, y: Yard<T>, e: T) returns (k: Store<T>)
    requires Inv(h, y) && On(y, e)
    ensures e in h && h[e].prev in h && h[e].next in h && k == Ops.Unsplice(h, e, e) && k.Keys == h.Keys
    ensures Inv(k, Apply(y, Delete(e)))
  {
    k := LessInv(h, y, e, Yard(RingsLess(y, Home(y, e), e), y.loose, y.freed + {e}));
  }

  lemma StepDelete<T>(h: Store<T>, y: Yard<T>, e: T)
    requires Inv(h, y) && On(y, e)
    ensures StepOk(h, y, Delete(e))
  {
    var k := DeleteInv(h, y, e);
    assert Runs.Do(h, CallOf(Delete(e))) == k;
  }

  lemma StepKeeps<T>(h: Store<T>, y: Yard<T>, m: Macro<T>)
    requires Inv(h, y) && Legal(y, m)
    ensures StepOk(h, y, m)
  {
    match m
    case Init(x) => StepInit(h, y, x);
    case InsertHead(b, e) => StepInsertHead(h, y, b, e);
    case InsertTail(b, e) => StepInsertTail(h, y, b, e);
    case Concat(a, b) => StepConcat(h, y, a, b);
    case Prepend(a, b) => StepPrepend(h, y, a, b);
    case Before(a, e) => StepBefore(h, y, a, e);
    case After(a, e) => StepAfter(h, y, a, e);
    case Remove(e) => StepRemove(h, y, e);
    case Delete(e) => StepDelete(h, y, e);
  }

  // ---- whole runs ----

  ghost predicate AllLegal<T>(y: Yard<T>, ms: seq<Macro<T>>)
    decreases |ms|
  {
    |ms| > 0 ==> Legal(y, ms[0]) && AllLegal(Apply(y, ms[0]), ms[1..])
  }

  ghost function ApplyAll<T>(y: Yard<T>, ms: seq<Macro<T>>): Yard<T>
    requires AllLegal(y, ms)
    decreases |ms|
  {
    if |ms| == 0 then y else ApplyAll(Apply(y, ms[0]), ms[1..])
  }

  /** The run on pointers: no macro dereferences a wild pointer, and every check on the way passes. */
  ghost predicate RunsClean<T>(h: Store<T>, ms: seq<Macro<T>>)
    decreases |ms|
  {
    |ms| > 0 ==>
      && Runs.Ready(h, CallOf(ms[0]))
      && (forall x :: x in CheckedFrom(ms[0]) ==> Passes(Runs.Do(h, CallOf(ms[0])), x))
      && RunsClean(Runs.Do(h, CallOf(ms[0])), ms[1..])
  }

  ghost function DoAll<T>(h: Store<T>, ms: seq<Macro<T>>): Store<T>
    requires RunsClean(h, ms)
    decreases |ms|
  {
    if |ms| == 0 then h else DoAll(Runs.Do(h, CallOf(ms[0])), ms[1..])
  }

  lemma {:induction false} RunKeeps<T>(h: Store<T>, y: Yard<T>, ms: seq<Macro<T>>)
    requires Inv(h, y) && AllLegal(y, ms)
    ensures RunsClean(h, ms) && Inv(DoAll(h, ms), ApplyAll(y, ms)) && DoAll(h, ms).Keys == h.Keys
    decreases |ms|
  {
    if |ms| > 0 {
      StepKeeps(h, y, ms[0]);
      RunKeeps(Runs.Do(h, CallOf(ms[0])), Apply(y, ms[0]), ms[1..]);
    }
  }

  /**
   * In every legal run of brigade and bucket macros over any memory, each check that a macro ends with
   * passes, and the brigades end up as the sequences computed without pointers.
   */
  lemma EveryCheckPasses<T>(h: Store<T>, ms: seq<Macro<T>>)
    requires AllLegal(Yard(map[], h.Keys, {}), ms)
    ensures RunsClean(h, ms)
    ensures var k, z := DoAll(h, ms), ApplyAll(Yard(map[], h.Keys, {}), ms);
      k.Keys == h.Keys && Tidy(h.Keys, z) && forall b :: b in z.rings ==> Ring(k, [b] + z.rings[b])
  {
    RunKeeps(h, Yard(map[], h.Keys, {}), ms);
    var k, z := DoAll(h, ms), ApplyAll(Yard(map[], h.Keys, {}), ms);
    forall b | b in z.rings
      ensures Ring(k, [b] + z.rings[b])
    {
      assert Ring(k, Whole(z, b));
    }
  }

  /** A new brigade and a bucket that was initialised first, whatever was in memory: the insertion is legal. */
  lemma InitialisedGoesIn<T>(h: Store<T>, b: T, e: T)
    requires b in h && e in h && b != e
    ensures var start, ms := Yard(map[], h.Keys, {}), [Init(b), Init(e), InsertTail(b, e)];
      AllLegal(start, ms) && ApplyAll(start, ms) == Yard(map[b := [e]], h.Keys - {b, e}, {})
  {
    var start, ms := Yard(map[], h.Keys, {}), [Init(b), Init(e), InsertTail(b, e)];
    var one := Apply(start, ms[0]);
    assert one == Yard(map[b := []], h.Keys - {b}, {});
    var two := Apply(one, ms[1]);
    assert two.rings == map[b := [], e := []] && two.loose == h.Keys - {b, e};
    var three := Apply(two, ms[2]);
    assert two.rings - {e} == map[b := []] && [] + [e] == [e];
    assert three.rings == map[b := []][b := [e]] == map[b := [e]] && three.loose == h.Keys - {b, e};
    RunOneFirst(two, ms[2], []);
    RunOneFirst(one, ms[1], [ms[2]]);
    RunOneFirst(start, ms[0], [ms[1], ms[2]]);
    assert [ms[0]] + [ms[1], ms[2]] == ms && [ms[1]] + [ms[2]] == [ms[1], ms[2]] && [ms[2]] + [] == [ms[2]];
  }

  lemma RunOneFirst<T>(y: Yard<T>, m: Macro<T>, ms: seq<Macro<T>>)
    requires Legal(y, m) && AllLegal(Apply(y, m), ms)
    ensures AllLegal(y, [m] + ms) && ApplyAll(y, [m] + ms) == ApplyAll(Apply(y, m), ms)
  {
    assert ([m] + ms)[1..] == ms;
  }
}
