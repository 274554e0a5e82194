/**
 * Whole runs of ring macros. A program holds pointers only; what it means is a partition of its
 * elements into rings and loose runs. The run of pointer writes refines the run on the partition.
 */
module RingRuns {
  import opened Links
  import Ops = RingOps
  import Check = RingCheck

  /** One macro call as the program makes it. INSERT, REMOVE, HEAD and TAIL forms are instances. */
  datatype Call<T> =
    | ElemInit(x: T)
    | SpliceBefore(lep: T, ep1: T, epN: T)
    | SpliceAfter(lep: T, ep1: T, epN: T)
    | Unsplice(ep1: T, epN: T)
    | Concat(s1: T, s2: T)
    | Prepend(s1: T, s2: T)
    | Nothing

  /** The call dereferences only pointers that lead to entries. */
  ghost predicate Ready<T>(h: Store<T>, call: Call<T>) {
    match call
    case ElemInit(x) => x in h
    case SpliceBefore(lep, ep1, epN) => lep in h && ep1 in h && epN in h && h[lep].prev in h
    case SpliceAfter(lep, ep1, epN) => lep in h && ep1 in h && epN in h && h[lep].next in h
    case Unsplice(ep1, epN) => ep1 in h && epN in h && h[ep1].prev in h && h[epN].next in h
    case Concat(s1, s2) => Ops.HeadsReady(h, s1, s2)
    case Prepend(s1, s2) => Ops.HeadsReady(h, s1, s2)
    case Nothing => true
  }

  ghost function Do<T>(h: Store<T>, call: Call<T>): Store<T>
    requires Ready(h, call)
  {
    match call
    case ElemInit(x) => Ops.ElemInit(h, x)
    case SpliceBefore(lep, ep1, epN) => Ops.SpliceBefore(h, lep, ep1, epN)
    case SpliceAfter(lep, ep1, epN) => Ops.SpliceAfter(h, lep, ep1, epN)
    case Unsplice(ep1, epN) => Ops.Unsplice(h, ep1, epN)
    case Concat(s1, s2) => Ops.Concat(h, s1, s2)
    case Prepend(s1, s2) => Ops.Prepend(h, s1, s2)
    case Nothing => h
  }

  ghost predicate AllReady<T>(h: Store<T>, calls: seq<Call<T>>)
    decreases |calls|
  {
    |calls| > 0 ==> Ready(h, calls[0]) && AllReady(Do(h, calls[0]), calls[1..])
  }

  ghost function DoAll<T>(h: Store<T>, calls: seq<Call<T>>): Store<T>
    requires AllReady(h, calls)
    decreases |calls|
  {
    if |calls| == 0 then h else DoAll(Do(h, calls[0]), calls[1..])
  }

  /** A piece of the partition. A headed ring has its sentinel first. */
  datatype Part<T> = OnRing(c: seq<T>) | Loose(c: seq<T>)

  /**
   * What a call means on the partition, by index of the parts and positions within them. Take takes a
   * run that leaves out the first element, the sentinel of a headed ring; TakeAll takes a whole ring
   * that has no head. Init initialises a loose element, Reset the first element of a ring, the others
   * being left behind. Turn, Open and Cut call nothing: a ring is looked at from another element, or
   * as a run to be spliced in elsewhere, as an initialised element is, and a loose run as two.
   */
  datatype Move =
    | Init(k: nat)
    | Before(r: nat, p: nat, k: nat)
    | After(r: nat, p: nat, k: nat)
    | Take(r: nat, i: nat, j: nat)
    | TakeAll(r: nat)
    | Reset(r: nat)
    | Turn(r: nat, i: nat)
    | Open(r: nat)
    | Append(r: nat, q: nat)
    | Front(r: nat, q: nat)
    | Cut(k: nat, m: nat)

  ghost predicate IsRing<T>(parts: seq<Part<T>>, r: nat) {
    r < |parts| && parts[r].OnRing? && |parts[r].c| > 0
  }

  ghost predicate IsLoose<T>(parts: seq<Part<T>>, k: nat) {
    k < |parts| && parts[k].Loose? && |parts[k].c| > 0
  }

  /** What the documentation asks of the caller. */
  ghost predicate Legal<T>(parts: seq<Part<T>>, m: Move) {
    match m
    case Init(k) => IsLoose(parts, k) && |parts[k].c| == 1
    case Before(r, p, k) => IsRing(parts, r) && IsLoose(parts, k) && 1 <= p <= |parts[r].c|
    case After(r, p, k) => IsRing(parts, r) && IsLoose(parts, k) && 1 <= p <= |parts[r].c|
    case Take(r, i, j) => IsRing(parts, r) && 1 <= i < j <= |parts[r].c|
    case TakeAll(r) => IsRing(parts, r)
    case Reset(r) => IsRing(parts, r)
    case Turn(r, i) => IsRing(parts, r) && i <= |parts[r].c|
    case Open(r) => IsRing(parts, r)
    case Append(r, q) => IsRing(parts, r) && IsRing(parts, q) && r != q
    case Front(r, q) => IsRing(parts, r) && IsRing(parts, q) && r != q
    case Cut(k, m) => IsLoose(parts, k) && m <= |parts[k].c|
  }

  /** The pointers the program passes when it makes move m. */
  ghost function CallOf<T>(parts: seq<Part<T>>, m: Move): Call<T>
    requires Legal(parts, m)
  {
    match m
    case Init(k) => ElemInit(parts[k].c[0])
    case Before(r, p, k) => SpliceBefore(Ops.At(parts[r].c, p), parts[k].c[0], Last(parts[k].c))
    case After(r, p, k) => SpliceAfter(parts[r].c[p - 1], parts[k].c[0], Last(parts[k].c))
    case Take(r, i, j) => Unsplice(parts[r].c[i], parts[r].c[j - 1])
    case TakeAll(r) => Unsplice(parts[r].c[0], Last(parts[r].c))
    case Reset(r) => ElemInit(parts[r].c[0])
    case Turn(_, _) => Nothing
    case Open(_) => Nothing
    case Append(r, q) => Concat(parts[r].c[0], parts[q].c[0])
    case Front(r, q) => Prepend(parts[r].c[0], parts[q].c[0])
    case Cut(_, _) => Nothing
  }

  ghost function Apply<T>(parts: seq<Part<T>>, m: Move): seq<Part<T>>
    requires Legal(parts, m)
  {
    match m
    case Init(k) => parts[k := OnRing(parts[k].c)]
    case Before(r, p, k) => Inserted(parts, r, p, k)
    case After(r, p, k) => Inserted(parts, r, p, k)
    case Take(r, i, j) =>
      var c := parts[r].c;
      parts[r := OnRing(c[..i] + c[j..])] + [Loose(c[i..j])]
    case TakeAll(r) => parts[r := Loose(parts[r].c)]
    case Reset(r) => parts[r := OnRing(parts[r].c[..1])] + [Loose(parts[r].c[1..])]
    case Turn(r, i) => parts[r := OnRing(parts[r].c[i..] + parts[r].c[..i])]
    case Open(r) => parts[r := Loose(parts[r].c)]
    case Append(r, q) =>
      var c, d := parts[r].c, parts[q].c;
      parts[r := OnRing(c + d[1..])][q := OnRing(d[..1])]
    case Front(r, q) =>
      var c, d := parts[r].c, parts[q].c;
      parts[r := OnRing(c[..1] + d[1..] + c[1..])][q := OnRing(d[..1])]
    case Cut(k, m) =>
      var c := parts[k].c;
      parts[k := Loose(c[..m])] + [Loose(c[m..])]
  }

  ghost function Inserted<T>(parts: seq<Part<T>>, r: nat, p: nat, k: nat): seq<Part<T>>
    requires IsRing(parts, r) && IsLoose(parts, k) && 1 <= p <= |parts[r].c|
  {
    var c := parts[r].c;
    parts[r := OnRing(c[..p] + parts[k].c + c[p..])][k := Loose([])]
  }

  ghost predicate AllLegal<T>(parts: seq<Part<T>>, ms: seq<Move>)
    decreases |ms|
  {
    |ms| > 0 ==> Legal(parts, ms[0]) && AllLegal(Apply(parts, ms[0]), ms[1..])
  }

  ghost function CallsOf<T>(parts: seq<Part<T>>, ms: seq<Move>): seq<Call<T>>
    requires AllLegal(parts, ms)
    decreases |ms|
  {
    if |ms| == 0 then [] else [CallOf(parts, ms[0])] + CallsOf(Apply(parts, ms[0]), ms[1..])
  }

  ghost function ApplyAll<T>(parts: seq<Part<T>>, ms: seq<Move>): seq<Part<T>>
    requires AllLegal(parts, ms)
    decreases |ms|
  {
    if |ms| == 0 then parts else ApplyAll(Apply(parts, ms[0]), ms[1..])
  }

  // ---- the invariant ----

  ghost predicate PartOk<T>(h: Store<T>, part: Part<T>) {
    match part
    case OnRing(c) => Ring(h, c)
    case Loose(c) => Chain(h, c)
  }

  /** How often an element occurs in all the parts together. */
  ghost function Count<T>(parts: seq<Part<T>>, x: T): nat {
    if |parts| == 0 then 0 else Count(parts[..|parts| - 1], x) + multiset(Last(parts).c)[x]
  }

  /** Every part is linked up as it should be, and every element is in exactly one part, once. */
  ghost predicate Inv<T>(h: Store<T>, parts: seq<Part<T>>) {
    && (forall i {:trigger PartOk(h, parts[i])} :: 0 <= i < |parts| ==> PartOk(h, parts[i]))
    && (forall x :: x in h ==> Count(parts, x) == 1)
  }

  lemma CountAppend<T>(parts: seq<Part<T>>, q: Part<T>, x: T)
    ensures Count(parts + [q], x) == Count(parts, x) + multiset(q.c)[x]
  {
  }

  lemma {:induction false} CountUpdate<T>(parts: seq<Part<T>>, i: nat, q: Part<T>, x: T)
    requires i < |parts|
    ensures Count(parts[i := q], x) + multiset(parts[i].c)[x] == Count(parts, x) + multiset(q.c)[x]
  {
    var n := |parts| - 1;
    if i == n {
      assert parts[i := q][..n] == parts[..n];
    } else {
      CountUpdate(parts[..n], i, q, x);
    }
  }

  lemma {:induction false} CountHas<T>(parts: seq<Part<T>>, i: nat, x: T)
    requires i < |parts|
    ensures Count(parts, x) >= multiset(parts[i].c)[x]
  {
    var n := |parts| - 1;
    if i < n {
      CountHas(parts[..n], i, x);
    }
  }

  lemma {:induction false} CountHasBoth<T>(parts: seq<Part<T>>, i: nat, j: nat, x: T)
    requires i < j < |parts|
    ensures Count(parts, x) >= multiset(parts[i].c)[x] + multiset(parts[j].c)[x]
  {
    var n := |parts| - 1;
    if j == n {
      CountHas(parts[..n], i, x);
    } else {
      CountHasBoth(parts[..n], i, j, x);
    }
  }

  /** No element is on two rings, or on a ring and loose. */
  lemma PartsDisjoint<T>(h: Store<T>, parts: seq<Part<T>>, i: nat, j: nat)
    requires Inv(h, parts) && i < |parts| && j < |parts| && i != j
    ensures Disjoint(parts[i].c, parts[j].c)
  {
    forall x | x in parts[i].c
      ensures x !in parts[j].c
    {
      CountHasBoth(parts, if i < j then i else j, if i < j then j else i, x);
      assert PartOk(h, parts[i]);
      assert x in multiset(parts[i].c) && x in h;
    }
  }

  // ---- one step ----

  /** A store that differs only on the elements of two parts keeps all the others. */
  lemma OthersKept<T>(h: Store<T>, k: Store<T>, parts: seq<Part<T>>, r: nat, q: nat)
    requires Inv(h, parts) && r < |parts| && q < |parts| && k.Keys == h.Keys
    requires forall x :: x in h && x !in parts[r].c && x !in parts[q].c ==> k[x] == h[x]
    ensures forall i {:trigger PartOk(k, parts[i])} :: 0 <= i < |parts| && i != r && i != q ==> PartOk(k, parts[i])
  {
    forall i | 0 <= i < |parts| && i != r && i != q
      ensures PartOk(k, parts[i])
    {
      PartsDisjoint(h, parts, i, r);
      PartsDisjoint(h, parts, i, q);
      assert PartOk(h, parts[i]);
      match parts[i]
      case OnRing(c) => RingFrame(h, k, c);
      case Loose(c) => ChainFrame(h, k, c);
    }
  }

  lemma CountExchange<T>(parts: seq<Part<T>>, r: nat, q: nat, a: Part<T>, b: Part<T>, x: T)
    requires r < |parts| && q < |parts| && r != q
    requires multiset(a.c) + multiset(b.c) == multiset(parts[r].c) + multiset(parts[q].c)
    ensures Count(parts[r := a][q := b], x) == Count(parts, x)
  {
    CountUpdate(parts, r, a, x);
    CountUpdate(parts[r := a], q, b, x);
    assert (multiset(a.c) + multiset(b.c))[x] == (multiset(parts[r].c) + multiset(parts[q].c))[x];
  }

  lemma CountDivide<T>(parts: seq<Part<T>>, r: nat, a: Part<T>, b: Part<T>, x: T)
    requires r < |parts| && multiset(a.c) + multiset(b.c) == multiset(parts[r].c)
    ensures Count(parts[r := a] + [b], x) == Count(parts, x)
  {
    CountUpdate(parts, r, a, x);
  }

  /** Two parts exchange elements among themselves, nothing else is written. */
  lemma TwoReplaced<T>(h: Store<T>, k: Store<T>, parts: seq<Part<T>>, r: nat, q: nat, a: Part<T>, b: Part<T>)
    requires Inv(h, parts) && r < |parts| && q < |parts| && r != q && k.Keys == h.Keys
    requires forall x :: x in h && x !in parts[r].c && x !in parts[q].c ==> k[x] == h[x]
    requires PartOk(k, a) && PartOk(k, b)
    requires multiset(a.c) + multiset(b.c) == multiset(parts[r].c) + multiset(parts[q].c)
    ensures Inv(k, parts[r := a][q := b])
  {
    OthersKept(h, k, parts, r, q);
    forall x | x in k
      ensures Count(parts[r := a][q := b], x) == 1
    {
      CountExchange(parts, r, q, a, b, x);
    }
  }

  /** One part is linked up differently, with the same elements; nothing else is written. */
  lemma OneReplaced<T>(h: Store<T>, k: Store<T>, parts: seq<Part<T>>, r: nat, a: Part<T>)
    requires Inv(h, parts) && r < |parts| && k.Keys == h.Keys
    requires forall x :: x in h && x !in parts[r].c ==> k[x] == h[x]
    requires PartOk(k, a) && multiset(a.c) == multiset(parts[r].c)
    ensures Inv(k, parts[r := a])
  {
    OthersKept(h, k, parts, r, r);
    forall x | x in k
      ensures Count(parts[r := a], x) == 1
    {
      CountUpdate(parts, r, a, x);
    }
  }

  /** One part falls into two, nothing else is written. */
  lemma OneDivided<T>(h: Store<T>, k: Store<T>, parts: seq<Part<T>>, r: nat, a: Part<T>, b: Part<T>)
    requires Inv(h, parts) && r < |parts| && k.Keys == h.Keys
    requires forall x :: x in h && x !in parts[r].c ==> k[x] == h[x]
    requires PartOk(k, a) && PartOk(k, b)
    requires multiset(a.c) + multiset(b.c) == multiset(parts[r].c)
    ensures Inv(k, parts[r := a] + [b])
  {
    OthersKept(h, k, parts, r, r);
    forall x | x in k
      ensures Count(parts[r := a] + [b], x) == 1
    {
      CountDivide(parts, r, a, b, x);
    }
  }

  lemma BagOfInsert<T>(c: seq<T>, p: nat, ch: seq<T>)
    requires p <= |c|
    ensures multiset(c[..p] + ch + c[p..]) == multiset(c) + multiset(ch)
  {
    assert c == c[..p] + c[p..];
  }

  lemma CanInsert<T>(h: Store<T>, parts: seq<Part<T>>, r: nat, p: nat, k: nat)
    requires Inv(h, parts) && IsRing(parts, r) && IsLoose(parts, k) && 1 <= p <= |parts[r].c|
    ensures Ops.CanSplice(h, parts[r].c, p, parts[k].c)
  {
    assert PartOk(h, parts[r]) && PartOk(h, parts[k]);
    PartsDisjoint(h, parts, r, k);
  }

  /** The two splices, at the two sides of a gap, have one and the same effect. */
  lemma StepInsert<T>(h: Store<T>, parts: seq<Part<T>>, r: nat, p: nat, k: nat) returns (g: Store<T>)
    requires Inv(h, parts) && IsRing(parts, r) && IsLoose(parts, k) && 1 <= p <= |parts[r].c|
    ensures Ready(h, CallOf(parts, Before(r, p, k))) && Do(h, CallOf(parts, Before(r, p, k))) == g
    ensures Ready(h, CallOf(parts, After(r, p, k))) && Do(h, CallOf(parts, After(r, p, k))) == g
    ensures Inv(g, Inserted(parts, r, p, k)) && g.Keys == h.Keys
  {
    var c, ch := parts[r].c, parts[k].c;
    CanInsert(h, parts, r, p, k);
    g := Ops.SpliceAnywhere(h, c, p, ch);
    assert Inv(g, Inserted(parts, r, p, k)) by {
      BagOfInsert(c, p, ch);
      TwoReplaced(h, g, parts, r, k, OnRing(c[..p] + ch + c[p..]), Loose([]));
    }
  }

  lemma BagOfTake<T>(c: seq<T>, i: nat, j: nat)
    requires i <= j <= |c|
    ensures multiset(c[..i] + c[j..]) + multiset(c[i..j]) == multiset(c)
  {
    assert c == c[..i] + c[i..j] + c[j..];
  }

  lemma StepTake<T>(h: Store<T>, parts: seq<Part<T>>, r: nat, i: nat, j: nat)
    requires Inv(h, parts) && Legal(parts, Take(r, i, j))
    ensures StepOk(h, parts, Take(r, i, j))
  {
    var c := parts[r].c;
    assert Ready(h, CallOf(parts, Take(r, i, j))) by {
      assert PartOk(h, parts[r]);
      Ops.UnspliceRing(h, c, i, j);
    }
    var g := Ops.Unsplice(h, c[i], c[j - 1]);
    assert Inv(g, parts[r := OnRing(c[..i] + c[j..])] + [Loose(c[i..j])]) by {
      assert PartOk(h, parts[r]);
      Ops.UnspliceRing(h, c, i, j);
      BagOfTake(c, i, j);
      OneDivided(h, g, parts, r, OnRing(c[..i] + c[j..]), Loose(c[i..j]));
    }
  }

  lemma BagOfJoin<T>(c: seq<T>, d: seq<T>)
    requires |c| > 0 && |d| > 0
    ensures multiset(c + d[1..]) + multiset(d[..1]) == multiset(c) + multiset(d)
    ensures multiset(c[..1] + d[1..] + c[1..]) + multiset(d[..1]) == multiset(c) + multiset(d)
  {
    BagOfInsert(c, 1, d[1..]);
    assert d == d[..1] + d[1..];
  }

  lemma CanJoin<T>(h: Store<T>, parts: seq<Part<T>>, r: nat, q: nat)
    requires Inv(h, parts) && IsRing(parts, r) && IsRing(parts, q) && r != q
    ensures Ring(h, parts[r].c) && Ring(h, parts[q].c) && Disjoint(parts[r].c, parts[q].c)
  {
    assert PartOk(h, parts[r]) && PartOk(h, parts[q]);
    PartsDisjoint(h, parts, r, q);
  }

  lemma AppendParts<T>(h: Store<T>, c: seq<T>, d: seq<T>)
    requires Ring(h, c) && Ring(h, d) && Disjoint(c, d)
    ensures Ops.HeadsReady(h, c[0], d[0])
    ensures PartOk(Ops.Concat(h, c[0], d[0]), OnRing(c + d[1..])) && PartOk(Ops.Concat(h, c[0], d[0]), OnRing(d[..1]))
    ensures multiset(c + d[1..]) + multiset(d[..1]) == multiset(c) + multiset(d)
    ensures forall x :: x in h && x !in c && x !in d ==> Ops.Concat(h, c[0], d[0])[x] == h[x]
  {
    Ops.ConcatRings(h, c, d);
    BagOfJoin(c, d);
    assert d[..1] == [d[0]];
  }

  lemma AppendInv<T>(h: Store<T>, parts: seq<Part<T>>, r: nat, q: nat)
    requires Inv(h, parts) && IsRing(parts, r) && IsRing(parts, q) && r != q
    ensures var c, d := parts[r].c, parts[q].c;
      Ops.HeadsReady(h, c[0], d[0]) &&
      Inv(Ops.Concat(h, c[0], d[0]), parts[r := OnRing(c + d[1..])][q := OnRing(d[..1])])
  {
    var c, d := parts[r].c, parts[q].c;
    CanJoin(h, parts, r, q);
    AppendParts(h, c, d);
    TwoReplaced(h, Ops.Concat(h, c[0], d[0]), parts, r, q, OnRing(c + d[1..]), OnRing(d[..1]));
  }

  lemma StepAppend<T>(h: Store<T>, parts: seq<Part<T>>, r: nat, q: nat)
    requires Inv(h, parts) && Legal(parts, Append(r, q))
    ensures StepOk(h, parts, Append(r, q))
  {
    var c, d := parts[r].c, parts[q].c;
    AppendInv(h, parts, r, q);
    assert Apply(parts, Append(r, q)) == parts[r := OnRing(c + d[1..])][q := OnRing(d[..1])];
  }

  lemma FrontParts<T>(h: Store<T>, c: seq<T>, d: seq<T>)
    requires Ring(h, c) && Ring(h, d) && Disjoint(c, d)
    ensures Ops.HeadsReady(h, c[0], d[0])
    ensures PartOk(Ops.Prepend(h, c[0], d[0]), OnRing(c[..1] + d[1..] + c[1..]))
    ensures PartOk(Ops.Prepend(h, c[0], d[0]), OnRing(d[..1]))
    ensures multiset(c[..1] + d[1..] + c[1..]) + multiset(d[..1]) == multiset(c) + multiset(d)
    ensures forall x :: x in h && x !in c && x !in d ==> Ops.Prepend(h, c[0], d[0])[x] == h[x]
  {
    Ops.PrependRings(h, c, d);
    BagOfJoin(c, d);
    assert d[..1] == [d[0]];
  }

  lemma FrontInv<T>(h: Store<T>, parts: seq<Part<T>>, r: nat, q: nat)
    requires Inv(h, parts) && IsRing(parts, r) && IsRing(parts, q) && r != q
    ensures var c, d := parts[r].c, parts[q].c;
      Ops.HeadsReady(h, c[0], d[0]) &&
      Inv(Ops.Prepend(h, c[0], d[0]), parts[r := OnRing(c[..1] + d[1..] + c[1..])][q := OnRing(d[..1])])
  {
    var c, d := parts[r].c, parts[q].c;
    CanJoin(h, parts, r, q);
    FrontParts(h, c, d);
    TwoReplaced(h, Ops.Prepend(h, c[0], d[0]), parts, r, q, OnRing(c[..1] + d[1..] + c[1..]), OnRing(d[..1]));
  }

  lemma StepFront<T>(h: Store<T>, parts: seq<Part<T>>, r: nat, q: nat)
    requires Inv(h, parts) && Legal(parts, Front(r, q))
    ensures StepOk(h, parts, Front(r, q))
  {
    var c, d := parts[r].c, parts[q].c;
    FrontInv(h, parts, r, q);
    assert Apply(parts, Front(r, q)) == parts[r := OnRing(c[..1] + d[1..] + c[1..])][q := OnRing(d[..1])];
  }

  lemma StepInit<T>(h: Store<T>, parts: seq<Part<T>>, k: nat)
    requires Inv(h, parts) && Legal(parts, Init(k))
    ensures StepOk(h, parts, Init(k))
  {
    var c := parts[k].c;
    assert PartOk(h, parts[k]);
    Ops.ElemInitRing(h, c[0]);
    OneReplaced(h, Ops.ElemInit(h, c[0]), parts, k, OnRing(c));
  }

  lemma StepTakeAll<T>(h: Store<T>, parts: seq<Part<T>>, r: nat)
    requires Inv(h, parts) && Legal(parts, TakeAll(r))
    ensures StepOk(h, parts, TakeAll(r))
  {
    var c := parts[r].c;
    assert PartOk(h, parts[r]);
    Ops.UnspliceWhole(h, c);
    OneReplaced(h, h, parts, r, Loose(c));
  }

  /** INIT of a head whose ring has elements leaves those behind as a loose run. */
  lemma ResetParts<T>(h: Store<T>, c: seq<T>)
    requires Ring(h, c)
    ensures c[0] in h && PartOk(Ops.ElemInit(h, c[0]), OnRing(c[..1])) && PartOk(Ops.ElemInit(h, c[0]), Loose(c[1..]))
    ensures multiset(c[..1]) + multiset(c[1..]) == multiset(c)
  {
    Ops.ElemInitRing(h, c[0]);
    ChainSlice(h, c, 1, |c|);
    assert c[..1] == [c[0]] && c[1..|c|] == c[1..] && c == c[..1] + c[1..];
    ChainFrame(h, Ops.ElemInit(h, c[0]), c[1..]);
  }

  lemma StepReset<T>(h: Store<T>, parts: seq<Part<T>>, r: nat)
    requires Inv(h, parts) && Legal(parts, Reset(r))
    ensures StepOk(h, parts, Reset(r))
  {
    var c := parts[r].c;
    assert PartOk(h, parts[r]);
    ResetParts(h, c);
    OneDivided(h, Ops.ElemInit(h, c[0]), parts, r, OnRing(c[..1]), Loose(c[1..]));
  }

  lemma StepOpen<T>(h: Store<T>, parts: seq<Part<T>>, r: nat)
    requires Inv(h, parts) && Legal(parts, Open(r))
    ensures StepOk(h, parts, Open(r))
  {
    assert PartOk(h, parts[r]);
    OneReplaced(h, h, parts, r, Loose(parts[r].c));
  }

  lemma BagOfTurn<T>(c: seq<T>, i: nat)
    requires i <= |c|
    ensures multiset(c[i..] + c[..i]) == multiset(c)
  {
    assert c == c[..i] + c[i..];
  }

  lemma StepTurn<T>(h: Store<T>, parts: seq<Part<T>>, r: nat, i: nat)
    requires Inv(h, parts) && Legal(parts, Turn(r, i))
    ensures StepOk(h, parts, Turn(r, i))
  {
    var c := parts[r].c;
    assert Inv(h, parts[r := OnRing(c[i..] + c[..i])]) by {
      assert PartOk(h, parts[r]);
      RingRotate(h, c, i);
      BagOfTurn(c, i);
      OneReplaced(h, h, parts, r, OnRing(c[i..] + c[..i]));
    }
  }

  lemma CutChain<T>(h: Store<T>, c: seq<T>, m: nat)
    requires Chain(h, c) && m <= |c|
    ensures Chain(h, c[..m]) && Chain(h, c[m..]) && multiset(c[..m]) + multiset(c[m..]) == multiset(c)
  {
    assert c == c[..m] + c[m..];
  }

  lemma StepCut<T>(h: Store<T>, parts: seq<Part<T>>, k: nat, m: nat)
    requires Inv(h, parts) && Legal(parts, Cut(k, m))
    ensures StepOk(h, parts, Cut(k, m))
  {
    var c := parts[k].c;
    assert PartOk(h, parts[k]);
    CutChain(h, c, m);
    OneDivided(h, h, parts, k, Loose(c[..m]), Loose(c[m..]));
  }

  /** A step dereferences entries only and keeps the invariant, on the same set of elements. */
  ghost predicate StepOk<T>(h: Store<T>, parts: seq<Part<T>>, m: Move)
    requires Legal(parts, m)
  {
    var call := CallOf(parts, m);
    Ready(h, call) && Inv(Do(h, call), Apply(parts, m)) && Do(h, call).Keys == h.Keys
  }

  lemma StepKeeps<T>(h: Store<T>, parts: seq<Part<T>>, m: Move)
    requires Inv(h, parts) && Legal(parts, m)
    ensures StepOk(h, parts, m)
  {
    match m
    case Before(r, p, k) => var g := StepInsert(h, parts, r, p, k);
    case After(r, p, k) => var g := StepInsert(h, parts, r, p, k);
    case Take(r, i, j) => StepTake(h, parts, r, i, j);
    case TakeAll(r) => StepTakeAll(h, parts, r);
    case Reset(r) => StepReset(h, parts, r);
    case Turn(r, i) => StepTurn(h, parts, r, i);
    case Open(r) => StepOpen(h, parts, r);
    case Append(r, q) => StepAppend(h, parts, r, q);
    case Front(r, q) => StepFront(h, parts, r, q);
    case Init(k) => StepInit(h, parts, k);
    case Cut(k, n) => StepCut(h, parts, k, n);
  }

  // ---- whole runs ----

  /** Every legal run dereferences entries only, and its pointers always spell out the partition. */
  lemma {:induction false} RunRefines<T>(h: Store<T>, parts: seq<Part<T>>, ms: seq<Move>)
    requires Inv(h, parts) && AllLegal(parts, ms)
    ensures AllReady(h, CallsOf(parts, ms))
    ensures Inv(DoAll(h, CallsOf(parts, ms)), ApplyAll(parts, ms))
    ensures DoAll(h, CallsOf(parts, ms)).Keys == h.Keys
    decreases |ms|
  {
    if |ms| > 0 {
      StepKeeps(h, parts, ms[0]);
      RunRefines(Do(h, CallOf(parts, ms[0])), Apply(parts, ms[0]), ms[1..]);
    }
  }

  /** Nothing is linked yet: every element is a loose run of its own, whatever its pointers hold. */
  ghost function Unlinked<T>(xs: seq<T>): seq<Part<T>> {
    if |xs| == 0 then [] else Unlinked(xs[..|xs| - 1]) + [Loose([Last(xs)])]
  }

  lemma {:induction false} UnlinkedParts<T>(h: Store<T>, xs: seq<T>)
    requires Distinct(xs) && forall x :: x in xs ==> x in h
    ensures forall i :: 0 <= i < |Unlinked(xs)| ==> PartOk(h, Unlinked(xs)[i])
    ensures forall x :: x in h ==> Count(Unlinked(xs), x) == if x in xs then 1 else 0
  {
    if |xs| > 0 {
      var n := |xs| - 1;
      UnlinkedParts(h, xs[..n]);
      assert xs == xs[..n] + [xs[n]];
      forall x | x in h
        ensures Count(Unlinked(xs), x) == if x in xs then 1 else 0
      {
        CountAppend(Unlinked(xs[..n]), Loose([xs[n]]), x);
      }
    }
  }

  /**
   * Safety of any run that starts from unlinked elements with arbitrary pointers in them: each ring
   * is a ring, no two of them share an element, nothing is lost or duplicated, and the consistency
   * check passes from every element of every ring. A prefix of a run is a run, so this holds throughout.
   */
  lemma RunsAreSafe<T>(h: Store<T>, xs: seq<T>, ms: seq<Move>)
    requires Distinct(xs) && (forall x :: x in xs <==> x in h) && AllLegal(Unlinked(xs), ms)
    ensures AllReady(h, CallsOf(Unlinked(xs), ms))
    ensures var k, parts := DoAll(h, CallsOf(Unlinked(xs), ms)), ApplyAll(Unlinked(xs), ms);
      && Inv(k, parts) && k.Keys == h.Keys
      && (forall i, j :: 0 <= i < j < |parts| ==> Disjoint(parts[i].c, parts[j].c))
      && (forall i, x :: 0 <= i < |parts| && parts[i].OnRing? && x in parts[i].c ==> CheckPasses(k, x))
  {
    UnlinkedParts(h, xs);
    RunRefines(h, Unlinked(xs), ms);
    var k, parts := DoAll(h, CallsOf(Unlinked(xs), ms)), ApplyAll(Unlinked(xs), ms);
    forall i, j | 0 <= i < j < |parts|
      ensures Disjoint(parts[i].c, parts[j].c)
    {
      PartsDisjoint(k, parts, i, j);
    }
    forall i, x | 0 <= i < |parts| && parts[i].OnRing? && x in parts[i].c
      ensures CheckPasses(k, x)
    {
      RingChecks(k, parts, i, x);
    }
  }

  ghost predicate CheckPasses<T>(h: Store<T>, x: T) {
    x in h && Check.Walk(h, [x]).Passed?
  }

  lemma RingChecks<T>(h: Store<T>, parts: seq<Part<T>>, i: nat, x: T)
    requires Inv(h, parts) && i < |parts| && parts[i].OnRing? && x in parts[i].c
    ensures CheckPasses(h, x)
  {
    assert PartOk(h, parts[i]);
    var n :| 0 <= n < |parts[i].c| && parts[i].c[n] == x;
    Check.CheckPassesOnRing(h, parts[i].c, n);
  }
}
