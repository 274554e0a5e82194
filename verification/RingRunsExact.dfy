/**
 * Why the partition of RingRuns is the right one: the pointers admit no other reading of the same
 * shape, every arrangement into rings is the outcome of some run, and every call that the macros
 * allow is a call of some run.
 */
module RingRunsExact {
  import opened Links
  import opened RingRuns
  import Ops = RingOps

  /** What a part is before its pointers are followed: where it starts, and for a loose run how long it is. */
  datatype Shape<T> = RingFrom(first: T) | RunFrom(start: T, length: nat) | Nobody

  ghost function ShapeOf<T>(part: Part<T>): Shape<T> {
    if |part.c| == 0 then Nobody
    else if part.OnRing? then RingFrom(part.c[0])
    else RunFrom(part.c[0], |part.c|)
  }

  /** Elements n to the end of c, as a loose run. */
  ghost function RestFrom<T>(c: seq<T>, n: nat): Shape<T>
    requires n <= |c|
  {
    if n == |c| then Nobody else RunFrom(c[n], |c| - n)
  }

  ghost function Shapes<T>(parts: seq<Part<T>>): seq<Shape<T>> {
    seq(|parts|, i requires 0 <= i < |parts| => ShapeOf(parts[i]))
  }

  /** The heads stay heads; INIT makes rings; what is taken, left or cut off is loose. */
  ghost function ShapesAfter<T>(parts: seq<Part<T>>, m: Move): seq<Shape<T>>
    requires Legal(parts, m)
  {
    var s := Shapes(parts);
    match m
    case Init(k) => s[k := RingFrom(parts[k].c[0])]
    case Before(_, _, k) => s[k := Nobody]
    case After(_, _, k) => s[k := Nobody]
    case Take(r, i, j) => s + [RunFrom(parts[r].c[i], j - i)]
    case TakeAll(r) => s[r := RestFrom(parts[r].c, 0)]
    case Reset(r) => s + [RestFrom(parts[r].c, 1)]
    case Turn(r, i) => s[r := RingFrom(parts[r].c[i % |parts[r].c|])]
    case Open(r) => s[r := RestFrom(parts[r].c, 0)]
    case Append(_, _) => s
    case Front(_, _) => s
    case Cut(k, n) => s[k := if n == 0 then Nobody else RunFrom(parts[k].c[0], n)] + [RestFrom(parts[k].c, n)]
  }

  /** A chain is found by following its pointers. */
  lemma {:induction false} ChainUnique<T>(h: Store<T>, c: seq<T>, d: seq<T>)
    requires Chain(h, c) && Chain(h, d) && |c| == |d| && (|c| > 0 ==> c[0] == d[0])
    ensures c == d
  {
    if |c| > 1 {
      var n := |c| - 1;
      assert Chain(h, c[..n]) && Chain(h, d[..n]) by {
        ChainSlice(h, c, 0, n);
        ChainSlice(h, d, 0, n);
      }
      ChainUnique(h, c[..n], d[..n]);
      assert Linked(h, c[n - 1], c[n]) && Linked(h, d[n - 1], d[n]);
      assert c[n - 1] == c[..n][n - 1] && d[n - 1] == d[..n][n - 1];
    }
  }

  /** The memory and the shape of a part determine the part. */
  lemma OneReading<T>(h: Store<T>, p: Part<T>, q: Part<T>)
    requires PartOk(h, p) && PartOk(h, q) && ShapeOf(p) == ShapeOf(q)
    ensures p == q
  {
    if p.OnRing? {
      SameStart(h, p.c, q.c);
    } else {
      ChainUnique(h, p.c, q.c);
    }
  }

  lemma PartsReading<T>(h: Store<T>, parts: seq<Part<T>>, z: seq<Part<T>>)
    requires Inv(h, parts) && Inv(h, z) && Shapes(parts) == Shapes(z)
    ensures z == parts
  {
    assert |Shapes(parts)| == |parts| == |z|;
    forall i | 0 <= i < |z|
      ensures z[i] == parts[i]
    {
      assert PartOk(h, parts[i]) && PartOk(h, z[i]);
      assert Shapes(parts)[i] == ShapeOf(parts[i]) && Shapes(z)[i] == ShapeOf(z[i]);
      OneReading(h, parts[i], z[i]);
    }
  }

  lemma ShapesUpdate<T>(parts: seq<Part<T>>, i: nat, q: Part<T>)
    requires i < |parts|
    ensures Shapes(parts[i := q]) == Shapes(parts)[i := ShapeOf(q)]
    ensures ShapeOf(q) == ShapeOf(parts[i]) ==> Shapes(parts[i := q]) == Shapes(parts)
  {
    assert ShapeOf(q) == ShapeOf(parts[i]) ==> Shapes(parts)[i := ShapeOf(q)] == Shapes(parts);
  }

  lemma ShapesAppend<T>(parts: seq<Part<T>>, q: Part<T>)
    ensures Shapes(parts + [q]) == Shapes(parts) + [ShapeOf(q)]
  {
  }

  lemma InsertShapes<T>(parts: seq<Part<T>>, r: nat, p: nat, k: nat)
    requires IsRing(parts, r) && IsLoose(parts, k) && 1 <= p <= |parts[r].c|
    ensures Shapes(Inserted(parts, r, p, k)) == Shapes(parts)[k := Nobody]
  {
    var longer := OnRing(parts[r].c[..p] + parts[k].c + parts[r].c[p..]);
    assert longer.c[0] == parts[r].c[0];
    ShapesUpdate(parts, r, longer);
    ShapesUpdate(parts[r := longer], k, Loose([]));
  }

  lemma JoinShapes<T>(parts: seq<Part<T>>, r: nat, q: nat, c: seq<T>)
    requires IsRing(parts, r) && IsRing(parts, q) && r != q && |c| > 0 && c[0] == parts[r].c[0]
    ensures Shapes(parts[r := OnRing(c)][q := OnRing(parts[q].c[..1])]) == Shapes(parts)
  {
    ShapesUpdate(parts, r, OnRing(c));
    ShapesUpdate(parts[r := OnRing(c)], q, OnRing(parts[q].c[..1]));
  }

  lemma DivideShapes<T>(parts: seq<Part<T>>, r: nat, a: Part<T>, b: Part<T>)
    requires r < |parts|
    ensures Shapes(parts[r := a] + [b]) == Shapes(parts)[r := ShapeOf(a)] + [ShapeOf(b)]
    ensures ShapeOf(a) == ShapeOf(parts[r]) ==> Shapes(parts[r := a] + [b]) == Shapes(parts) + [ShapeOf(b)]
  {
    ShapesUpdate(parts, r, a);
    ShapesAppend(parts[r := a], b);
  }

  lemma ApplyShapes<T>(parts: seq<Part<T>>, m: Move)
    requires Legal(parts, m)
    ensures Shapes(Apply(parts, m)) == ShapesAfter(parts, m)
  {
    match m
    case Init(k) => ShapesUpdate(parts, k, OnRing(parts[k].c));
    case Before(r, p, k) => InsertShapes(parts, r, p, k);
    case After(r, p, k) => InsertShapes(parts, r, p, k);
    case Take(r, i, j) => TakeShapes(parts, r, i, j);
    case TakeAll(r) => ShapesUpdate(parts, r, Loose(parts[r].c));
    case Reset(r) => DivideShapes(parts, r, OnRing(parts[r].c[..1]), Loose(parts[r].c[1..]));
    case Turn(r, i) => TurnShapes(parts, r, i);
    case Open(r) => ShapesUpdate(parts, r, Loose(parts[r].c));
    case Append(r, q) => JoinShapes(parts, r, q, parts[r].c + parts[q].c[1..]);
    case Front(r, q) => JoinShapes(parts, r, q, parts[r].c[..1] + parts[q].c[1..] + parts[r].c[1..]);
    case Cut(k, n) => DivideShapes(parts, k, Loose(parts[k].c[..n]), Loose(parts[k].c[n..]));
  }

  lemma TakeShapes<T>(parts: seq<Part<T>>, r: nat, i: nat, j: nat)
    requires Legal(parts, Take(r, i, j))
    ensures Shapes(Apply(parts, Take(r, i, j))) == ShapesAfter(parts, Take(r, i, j))
  {
    var c := parts[r].c;
    assert (c[..i] + c[j..])[0] == c[0] && c[i..j][0] == c[i];
    DivideShapes(parts, r, OnRing(c[..i] + c[j..]), Loose(c[i..j]));
  }

  lemma TurnShapes<T>(parts: seq<Part<T>>, r: nat, i: nat)
    requires Legal(parts, Turn(r, i))
    ensures Shapes(Apply(parts, Turn(r, i))) == ShapesAfter(parts, Turn(r, i))
  {
    var c := parts[r].c;
    assert (c[i..] + c[..i])[0] == if i == |c| then c[0] else c[i];
    assert i % |c| == if i == |c| then 0 else i;
    ShapesUpdate(parts, r, OnRing(c[i..] + c[..i]));
  }

  /**
   * The partition after a move is the only one that the pointers after its call spell out with the
   * rings and runs of that many elements starting where they should.
   */
  lemma ApplyIsTheReading<T>(h: Store<T>, parts: seq<Part<T>>, m: Move, z: seq<Part<T>>)
    requires Inv(h, parts) && Legal(parts, m)
    ensures StepOk(h, parts, m)
    ensures z == Apply(parts, m) <==> Inv(Do(h, CallOf(parts, m)), z) && Shapes(z) == ShapesAfter(parts, m)
  {
    StepKeeps(h, parts, m);
    ApplyShapes(parts, m);
    if Inv(Do(h, CallOf(parts, m)), z) && Shapes(z) == ShapesAfter(parts, m) {
      PartsReading(Do(h, CallOf(parts, m)), Apply(parts, m), z);
    }
  }

  // ---- every arrangement is reached ----

  lemma MoveFirst<T>(parts: seq<Part<T>>, m: Move, ms: seq<Move>)
    requires Legal(parts, m) && AllLegal(Apply(parts, m), ms)
    ensures AllLegal(parts, [m] + ms) && ApplyAll(parts, [m] + ms) == ApplyAll(Apply(parts, m), ms)
  {
    assert ([m] + ms)[1..] == ms;
  }

  lemma FirstApart<A>(a: seq<A>, b: seq<A>)
    requires |a| > 0
    ensures a + b == [a[0]] + (a[1..] + b)
  {
  }

  lemma {:induction false} RunAppend<T>(parts: seq<Part<T>>, a: seq<Move>, b: seq<Move>)
    requires AllLegal(parts, a) && AllLegal(ApplyAll(parts, a), b)
    ensures AllLegal(parts, a + b) && ApplyAll(parts, a + b) == ApplyAll(ApplyAll(parts, a), b)
    decreases |a|
  {
    if |a| == 0 {
      assert a + b == b;
    } else {
      RunAppend(Apply(parts, a[0]), a[1..], b);
      MoveFirst(parts, a[0], a[1..] + b);
      FirstApart(a, b);
    }
  }

  /** The elements of zs are still unlinked; part i is that of xs[i]. */
  ghost predicate Waiting<T>(parts: seq<Part<T>>, xs: seq<T>, zs: seq<T>) {
    |parts| == |xs| && forall i :: 0 <= i < |xs| && xs[i] in zs ==> parts[i] == Loose([xs[i]])
  }

  /** Between old_ and parts, only the parts of elements of c changed. */
  ghost predicate OnlyFor<T>(old_: seq<Part<T>>, parts: seq<Part<T>>, xs: seq<T>, c: seq<T>) {
    |old_| == |parts| == |xs| && forall i :: 0 <= i < |xs| && xs[i] !in c ==> parts[i] == old_[i]
  }

  lemma OneMoreOn<T>(parts: seq<Part<T>>, xs: seq<T>, r: nat, c: seq<T>, n: nat) returns (m: Move)
    requires Distinct(xs) && Distinct(c) && forall x :: x in c ==> x in xs
    requires 1 <= n < |c| && r < |xs| && xs[r] == c[0] && Waiting(parts, xs, c[n..]) && parts[r] == OnRing(c[..n])
    ensures Legal(parts, m)
    ensures var next := Apply(parts, m);
      Waiting(next, xs, c[n + 1..]) && next[r] == OnRing(c[..n + 1]) && OnlyFor(parts, next, xs, c)
  {
    assert c[n] in c && c[n] in c[n..];
    var k :| 0 <= k < |xs| && xs[k] == c[n];
    m := After(r, n, k);
    assert c[..n][..n] + [c[n]] + c[..n][n..] == c[..n + 1];
    forall i | 0 <= i < |xs| && xs[i] in c[n + 1..]
      ensures i != r && i != k && xs[i] in c[n..]
    {
      var t :| 0 <= t < |c[n + 1..]| && c[n + 1..][t] == xs[i];
      assert c[n + 1 + t] == xs[i] == c[n..][t + 1];
    }
  }

  lemma {:induction false} GrowRing<T>(parts: seq<Part<T>>, xs: seq<T>, r: nat, c: seq<T>, n: nat) returns (ms: seq<Move>)
    requires Distinct(xs) && Distinct(c) && forall x :: x in c ==> x in xs
    requires 1 <= n <= |c| && r < |xs| && xs[r] == c[0] && Waiting(parts, xs, c[n..]) && parts[r] == OnRing(c[..n])
    ensures AllLegal(parts, ms)
    ensures OnlyFor(parts, ApplyAll(parts, ms), xs, c) && ApplyAll(parts, ms)[r] == OnRing(c)
    decreases |c| - n
  {
    ms := [];
    if n == |c| {
      assert c[..n] == c;
    } else {
      var m := OneMoreOn(parts, xs, r, c, n);
      var rest := GrowRing(Apply(parts, m), xs, r, c, n + 1);
      ms := [m] + rest;
      assert ms[1..] == rest;
    }
  }

  /** INIT of the first element and an insertion for each of the others make c a ring. */
  lemma MakeRing<T>(parts: seq<Part<T>>, xs: seq<T>, c: seq<T>) returns (ms: seq<Move>, r: nat)
    requires Distinct(xs) && Distinct(c) && |c| > 0 && (forall x :: x in c ==> x in xs) && Waiting(parts, xs, c)
    ensures AllLegal(parts, ms) && r < |xs| && xs[r] == c[0]
    ensures OnlyFor(parts, ApplyAll(parts, ms), xs, c) && ApplyAll(parts, ms)[r] == OnRing(c)
  {
    assert c[0] in c;
    r :| 0 <= r < |xs| && xs[r] == c[0];
    var next := Apply(parts, Init(r));
    assert c[..1] == [c[0]];
    forall i | 0 <= i < |xs| && xs[i] in c[1..]
      ensures next[i] == Loose([xs[i]])
    {
      var t :| 0 <= t < |c[1..]| && c[1..][t] == xs[i];
      assert c[t + 1] == xs[i];
    }
    var rest := GrowRing(next, xs, r, c, 1);
    ms := [Init(r)] + rest;
    assert ms[1..] == rest;
  }

  /** The rings of ds: none is empty, and no element occurs twice. */
  ghost predicate Arrangement<T>(ds: seq<seq<T>>) {
    && (forall i :: 0 <= i < |ds| ==> |ds[i]| > 0 && Distinct(ds[i]))
    && (forall i, j :: 0 <= i < j < |ds| ==> Disjoint(ds[i], ds[j]))
  }

  ghost predicate Made<T>(parts: seq<Part<T>>, xs: seq<T>, d: seq<T>) {
    |d| > 0 && exists i :: 0 <= i < |xs| <= |parts| && xs[i] == d[0] && parts[i] == OnRing(d)
  }

  lemma {:induction false} MakeRings<T>(parts: seq<Part<T>>, xs: seq<T>, ds: seq<seq<T>>, n: nat) returns (ms: seq<Move>)
    requires Distinct(xs) && Arrangement(ds) && n <= |ds| && |parts| == |xs|
    requires forall i, x :: 0 <= i < |ds| && x in ds[i] ==> x in xs
    requires forall i :: 0 <= i < n ==> Made(parts, xs, ds[i])
    requires forall i :: n <= i < |ds| ==> Waiting(parts, xs, ds[i])
    ensures AllLegal(parts, ms) && forall i :: 0 <= i < |ds| ==> Made(ApplyAll(parts, ms), xs, ds[i])
    decreases |ds| - n
  {
    ms := [];
    if n < |ds| {
      var first, r := MakeRing(parts, xs, ds[n]);
      var next := ApplyAll(parts, first);
      assert Made(next, xs, ds[n]);
      forall i | 0 <= i < n
        ensures Made(next, xs, ds[i])
      {
        assert Made(parts, xs, ds[i]) && Disjoint(ds[i], ds[n]) && ds[i][0] in ds[i];
      }
      forall i | n + 1 <= i < |ds|
        ensures Waiting(next, xs, ds[i])
      {
        assert Waiting(parts, xs, ds[i]) && Disjoint(ds[n], ds[i]);
      }
      var rest := MakeRings(next, xs, ds, n + 1);
      RunAppend(parts, first, rest);
      ms := first + rest;
    }
  }

  lemma {:induction false} UnlinkedAt<T>(xs: seq<T>)
    ensures |Unlinked(xs)| == |xs| && forall i :: 0 <= i < |xs| ==> Unlinked(xs)[i] == Loose([xs[i]])
  {
    if |xs| > 0 {
      UnlinkedAt(xs[..|xs| - 1]);
    }
  }

  /** Any rings whatever, sharing no element, are what some legal run leaves in memory. */
  lemma EveryArrangement<T>(h: Store<T>, xs: seq<T>, ds: seq<seq<T>>) returns (ms: seq<Move>)
    requires Distinct(xs) && (forall x :: x in xs <==> x in h) && Arrangement(ds)
    requires forall i, x :: 0 <= i < |ds| && x in ds[i] ==> x in xs
    ensures AllLegal(Unlinked(xs), ms) && AllReady(h, CallsOf(Unlinked(xs), ms))
    ensures forall i :: 0 <= i < |ds| ==> OnRing(ds[i]) in ApplyAll(Unlinked(xs), ms)
    ensures forall i :: 0 <= i < |ds| ==> Ring(DoAll(h, CallsOf(Unlinked(xs), ms)), ds[i])
  {
    UnlinkedAt(xs);
    ms := MakeRings(Unlinked(xs), xs, ds, 0);
    RunsAreSafe(h, xs, ms);
    var k, z := DoAll(h, CallsOf(Unlinked(xs), ms)), ApplyAll(Unlinked(xs), ms);
    forall i | 0 <= i < |ds|
      ensures OnRing(ds[i]) in z && Ring(k, ds[i])
    {
      assert Made(z, xs, ds[i]);
      var j :| 0 <= j < |xs| <= |z| && z[j] == OnRing(ds[i]);
      assert PartOk(k, z[j]);
    }
  }

  // ---- every call the macros allow is made by some run ----

  /** After moves that call nothing comes one that makes the call; the partition is then z. */
  ghost predicate Calls<T>(parts: seq<Part<T>>, ms: seq<Move>, call: Call<T>, z: seq<Part<T>>) {
    && AllLegal(parts, ms) && |ms| > 0 && ApplyAll(parts, ms) == z
    && CallsOf(parts, ms) == seq(|ms| - 1, _ => Nothing) + [call]
  }

  lemma OneCall<T>(parts: seq<Part<T>>, m: Move)
    requires Legal(parts, m)
    ensures Calls(parts, [m], CallOf(parts, m), Apply(parts, m))
  {
    assert [m][1..] == [];
    assert CallsOf(parts, [m]) == [CallOf(parts, m)] + CallsOf(Apply(parts, m), []);
    assert seq(0, _ => Nothing) + [CallOf(parts, m)] == [CallOf(parts, m)];
  }

  lemma QuietFirst<T>(parts: seq<Part<T>>, m: Move, ms: seq<Move>, call: Call<T>, z: seq<Part<T>>)
    requires Legal(parts, m) && CallOf(parts, m) == Nothing && Calls(Apply(parts, m), ms, call, z)
    ensures Calls(parts, [m] + ms, call, z)
  {
    assert ([m] + ms)[1..] == ms;
    var n := |ms|;
    var quiet: seq<Call<T>> := seq(n - 1, _ => Nothing);
    assert CallsOf(parts, [m] + ms) == [Nothing] + (quiet + [call]);
    var more: seq<Call<T>> := seq(n, _ => Nothing);
    assert more == [Nothing] + quiet;
    assert [Nothing] + (quiet + [call]) == more + [call];
  }

  /** CONCAT and PREPEND: any element of a ring may be the head, and any of a disjoint ring that of the other. */
  lemma AnyTwoJoin<T>(parts: seq<Part<T>>, r: nat, i: nat, q: nat, j: nat)
    returns (ms: seq<Move>, ns: seq<Move>, y: seq<Part<T>>, z: seq<Part<T>>)
    requires IsRing(parts, r) && IsRing(parts, q) && r != q && i < |parts[r].c| && j < |parts[q].c|
    ensures Calls(parts, ms, Concat(parts[r].c[i], parts[q].c[j]), y)
    ensures Calls(parts, ns, Prepend(parts[r].c[i], parts[q].c[j]), z)
  {
    var one := Apply(parts, Turn(r, i));
    var two := Apply(one, Turn(q, j));
    assert two[r].c[0] == parts[r].c[i] && two[q].c[0] == parts[q].c[j];
    y, z := Apply(two, Append(r, q)), Apply(two, Front(r, q));
    OneCall(two, Append(r, q));
    OneCall(two, Front(r, q));
    QuietFirst(one, Turn(q, j), [Append(r, q)], Concat(parts[r].c[i], parts[q].c[j]), y);
    QuietFirst(one, Turn(q, j), [Front(r, q)], Prepend(parts[r].c[i], parts[q].c[j]), z);
    ms, ns := [Turn(r, i)] + ([Turn(q, j)] + [Append(r, q)]), [Turn(r, i)] + ([Turn(q, j)] + [Front(r, q)]);
    QuietFirst(parts, Turn(r, i), [Turn(q, j)] + [Append(r, q)], Concat(parts[r].c[i], parts[q].c[j]), y);
    QuietFirst(parts, Turn(r, i), [Turn(q, j)] + [Front(r, q)], Prepend(parts[r].c[i], parts[q].c[j]), z);
  }

  lemma CutOut<T>(parts: seq<Part<T>>, k: nat, i: nat, j: nat) returns (one: seq<Part<T>>, two: seq<Part<T>>)
    requires IsLoose(parts, k) && i < j <= |parts[k].c|
    ensures one == Apply(parts, Cut(k, j)) && IsLoose(one, k) && i <= |one[k].c| && two == Apply(one, Cut(k, i))
    ensures |two| == |parts| + 2 && two[|parts| + 1] == Loose(parts[k].c[i..j])
    ensures forall r :: 0 <= r < |parts| && r != k ==> two[r] == parts[r]
  {
    one := Apply(parts, Cut(k, j));
    two := Apply(one, Cut(k, i));
    assert parts[k].c[..j][i..] == parts[k].c[i..j];
  }

  /** The splices: any stretch of a loose run goes in at any gap of any ring, by either macro. */
  lemma AnyStretchGoesIn<T>(parts: seq<Part<T>>, r: nat, p: nat, k: nat, i: nat, j: nat)
    returns (ms: seq<Move>, ns: seq<Move>, z: seq<Part<T>>)
    requires IsRing(parts, r) && IsLoose(parts, k) && 1 <= p <= |parts[r].c| && i < j <= |parts[k].c|
    ensures Calls(parts, ms, SpliceBefore(Ops.At(parts[r].c, p), parts[k].c[i], parts[k].c[j - 1]), z)
    ensures Calls(parts, ns, SpliceAfter(parts[r].c[p - 1], parts[k].c[i], parts[k].c[j - 1]), z)
    ensures r < |z| && z[r] == OnRing(parts[r].c[..p] + parts[k].c[i..j] + parts[r].c[p..])
  {
    var c, n := parts[k].c, |parts| + 1;
    var one, two := CutOut(parts, k, i, j);
    var before, after := SpliceBefore(Ops.At(parts[r].c, p), c[i], c[j - 1]), SpliceAfter(parts[r].c[p - 1], c[i], c[j - 1]);
    z := Inserted(two, r, p, n);
    OneCall(two, Before(r, p, n));
    OneCall(two, After(r, p, n));
    QuietFirst(one, Cut(k, i), [Before(r, p, n)], before, z);
    QuietFirst(one, Cut(k, i), [After(r, p, n)], after, z);
    ms, ns := [Cut(k, j)] + ([Cut(k, i)] + [Before(r, p, n)]), [Cut(k, j)] + ([Cut(k, i)] + [After(r, p, n)]);
    QuietFirst(parts, Cut(k, j), [Cut(k, i)] + [Before(r, p, n)], before, z);
    QuietFirst(parts, Cut(k, j), [Cut(k, i)] + [After(r, p, n)], after, z);
  }

  /** UNSPLICE: n elements of a ring from any position on, the whole ring included, can be taken out. */
  lemma AnyArcComesOut<T>(parts: seq<Part<T>>, r: nat, i: nat, n: nat) returns (ms: seq<Move>, z: seq<Part<T>>)
    requires IsRing(parts, r) && i < |parts[r].c| && 1 <= n <= |parts[r].c|
    ensures var d := parts[r].c[i..] + parts[r].c[..i];
      Calls(parts, ms, Unsplice(d[0], d[n - 1]), z) && Loose(d[..n]) in z
  {
    var c := parts[r].c;
    var d := c[i..] + c[..i];
    if n == |c| {
      var one := Apply(parts, Turn(r, i));
      z := Apply(one, TakeAll(r));
      assert d[..n] == d && z[r] == Loose(d);
      OneCall(one, TakeAll(r));
      ms := [Turn(r, i)] + [TakeAll(r)];
      QuietFirst(parts, Turn(r, i), [TakeAll(r)], Unsplice(d[0], d[n - 1]), z);
    } else {
      var t := if i == 0 then |c| - 1 else i - 1;
      ArcAfterFirst(c, i, t, n);
      ms, z := TurnAndTake(parts, r, t, n);
    }
  }

  lemma ArcAfterFirst<T>(c: seq<T>, i: nat, t: nat, n: nat)
    requires i < |c| && t == (if i == 0 then |c| - 1 else i - 1) && 1 <= n < |c|
    ensures (c[t..] + c[..t])[1..n + 1] == (c[i..] + c[..i])[..n]
  {
    var e, d := c[t..] + c[..t], c[i..] + c[..i];
    assert forall x :: 0 <= x < |c| - 1 ==> e[x + 1] == d[x];
  }

  lemma TurnAndTake<T>(parts: seq<Part<T>>, r: nat, t: nat, n: nat) returns (ms: seq<Move>, z: seq<Part<T>>)
    requires IsRing(parts, r) && t < |parts[r].c| && 1 <= n < |parts[r].c|
    ensures var a := (parts[r].c[t..] + parts[r].c[..t])[1..n + 1];
      Calls(parts, ms, Unsplice(a[0], a[n - 1]), z) && Loose(a) in z
  {
    var one := Apply(parts, Turn(r, t));
    var a := one[r].c[1..n + 1];
    z := Apply(one, Take(r, 1, n + 1));
    assert z[|parts|] == Loose(a);
    OneCall(one, Take(r, 1, n + 1));
    ms := [Turn(r, t)] + [Take(r, 1, n + 1)];
    QuietFirst(parts, Turn(r, t), [Take(r, 1, n + 1)], Unsplice(a[0], a[n - 1]), z);
  }

  /** INIT and ELEM_INIT: any loose element, and any element of any ring, can be made a ring of its own. */
  lemma AnyElementInits<T>(parts: seq<Part<T>>, k: nat, i: nat) returns (ms: seq<Move>, z: seq<Part<T>>)
    requires k < |parts| && i < |parts[k].c|
    ensures Calls(parts, ms, ElemInit(parts[k].c[i]), z) && OnRing([parts[k].c[i]]) in z
  {
    var c := parts[k].c;
    if parts[k].OnRing? {
      var one := Apply(parts, Turn(k, i));
      z := Apply(one, Reset(k));
      assert z[k] == OnRing([c[i]]);
      OneCall(one, Reset(k));
      ms := [Turn(k, i)] + [Reset(k)];
      QuietFirst(parts, Turn(k, i), [Reset(k)], ElemInit(c[i]), z);
    } else {
      var n := |parts| + 1;
      var one := Apply(parts, Cut(k, i + 1));
      var two := Apply(one, Cut(k, i));
      assert c[..i + 1][i..] == [c[i]] && two[n] == Loose([c[i]]);
      z := Apply(two, Init(n));
      assert z[n] == OnRing([c[i]]);
      OneCall(two, Init(n));
      ms := [Cut(k, i + 1)] + ([Cut(k, i)] + [Init(n)]);
      QuietFirst(one, Cut(k, i), [Init(n)], ElemInit(c[i]), z);
      QuietFirst(parts, Cut(k, i + 1), [Cut(k, i)] + [Init(n)], ElemInit(c[i]), z);
    }
  }
}
