/** Registration: APR_IMPLEMENT_EXTERNAL_HOOK_BASE for all the hooks of one _hooks struct. */
module HookTable {
  import opened Options
  import opened Hooks

  /** One call of a ns_hook_name function, szName being apr_hook_debug_current at that moment. */
  datatype Registration<!S, !R> = Registration(name: string, record: Record<S, R>)

  /** links: the arrays of the _hooks struct, a missing name being a NULL link. sorted: apr_hook_sort_register calls. */
  datatype Table<!S, !R> = Table(links: map<string, seq<Record<S, R>>>, sorted: seq<string>)

  /** apr_hook_sort_register, of which only the calls are known. */
  class Sorter {
    var registered: seq<string>

    constructor ()
      ensures registered == []
    {
      registered := [];
    }

    method Register(szHookName: string)
      modifies this
      ensures registered == old(registered) + [szHookName]
    {
      registered := registered + [szHookName];
    }
  }

  /** The two debugging globals, and the calls of apr_hook_debug_show. */
  class Debug {
    var current: string
    var enabled: bool
    var shown: seq<(string, seq<string>, seq<string>)>
  }

  class HookStruct<S, R> {
    var links: map<string, seq<Record<S, R>>>

    constructor ()
      ensures links == map[]
    {
      links := map[];
    }

    ghost function TableWith(sorter: Sorter): Table<S, R>
      reads this, sorter
    {
      Table(links, sorter.registered)
    }

    /** ns_hook_name */
    method Hook(name: string, pf: S -> (R, S), aszPre: seq<string>, aszSucc: seq<string>, nOrder: int,
                sorter: Sorter, debug: Debug)
      modifies this, sorter, debug`shown
      ensures TableWith(sorter) ==
        After(old(TableWith(sorter)), Registration(name, Record(pf, debug.current, aszPre, aszSucc, nOrder)))
      ensures debug.shown == old(debug.shown) + if debug.enabled then [(name, aszPre, aszSucc)] else []
    {
      if name !in links {
        links := links[name := []];
        sorter.Register(name);
      }
      links := links[name := links[name] + [Record(pf, debug.current, aszPre, aszSucc, nOrder)]];
      if debug.enabled {
        debug.shown := debug.shown + [(name, aszPre, aszSucc)];
      }
    }

    /**
     * ns_hook_get_name. After the registrations regs: NULL if none of them was for this hook, otherwise
     * the array of just those that were, in call order.
     */
    method Get(name: string, ghost regs: seq<Registration<S, R>>, ghost sorter: Sorter)
      returns (r: Option<seq<Record<S, R>>>)
      requires TableWith(sorter) == AfterAll(regs)
      ensures r == if Mentions(regs, name) then Some(Under(name, regs)) else None
    {
      ArraysAreExact(regs, name);
      r := if name in links then Some(links[name]) else None;
    }
  }

  /** The table after one registration. */
  ghost function After<S, R>(t: Table<S, R>, reg: Registration<S, R>): Table<S, R> {
    var old_ := if reg.name in t.links then t.links[reg.name] else [];
    Table(t.links[reg.name := old_ + [reg.record]], if reg.name in t.links then t.sorted else t.sorted + [reg.name])
  }

  /** The table after a run of registrations that started from nothing. */
  ghost function AfterAll<S, R>(regs: seq<Registration<S, R>>): Table<S, R> {
    if |regs| == 0 then Table(map[], []) else After(AfterAll(regs[..|regs| - 1]), regs[|regs| - 1])
  }

  /** The records registered under a name, in the order of the calls. */
  ghost function Under<S, R>(name: string, regs: seq<Registration<S, R>>): seq<Record<S, R>> {
    if |regs| == 0 then []
    else
      var reg := regs[|regs| - 1];
      Under(name, regs[..|regs| - 1]) + (if reg.name == name then [reg.record] else [])
  }

  ghost predicate Mentions<S, R>(regs: seq<Registration<S, R>>, name: string) {
    exists i :: 0 <= i < |regs| && regs[i].name == name
  }

  /** Each array holds exactly the records of its own hook, in call order; a link stays NULL until the first. */
  lemma {:induction false} ArraysAreExact<S, R>(regs: seq<Registration<S, R>>, name: string)
    ensures name in AfterAll(regs).links <==> Mentions(regs, name)
    ensures name in AfterAll(regs).links ==> AfterAll(regs).links[name] == Under(name, regs)
    ensures !Mentions(regs, name) ==> Under(name, regs) == []
  {
    if |regs| > 0 {
      var n := |regs| - 1;
      ArraysAreExact(regs[..n], name);
      assert Mentions(regs, name) <==> Mentions(regs[..n], name) || regs[n].name == name by {
        if Mentions(regs[..n], name) {
          var i :| 0 <= i < n && regs[..n][i].name == name;
          assert regs[i].name == name;
        }
        if regs[n].name != name && Mentions(regs, name) {
          var i :| 0 <= i < |regs| && regs[i].name == name;
          assert regs[..n][i].name == name;
        }
      }
    }
  }

  /** Position k of the sorter's list was reached by the first registration under that name, and only then. */
  ghost predicate FirstUnder<S, R>(regs: seq<Registration<S, R>>, i: nat, name: string) {
    i < |regs| && regs[i].name == name && !Mentions(regs[..i], name)
  }

  lemma FirstUnderPrefix<S, R>(regs: seq<Registration<S, R>>, n: nat, i: nat, name: string)
    requires i < n <= |regs|
    ensures FirstUnder(regs[..n], i, name) <==> FirstUnder(regs, i, name)
  {
    assert regs[..n][..i] == regs[..i];
  }

  /** names lists the hooks by first registration, and at says which registrations those are. */
  ghost predicate Picks<S, R>(regs: seq<Registration<S, R>>, names: seq<string>, at: seq<nat>) {
    && |at| == |names|
    && (forall k :: 0 <= k < |at| ==> FirstUnder(regs, at[k], names[k]))
    && (forall k, m :: 0 <= k < m < |at| ==> at[k] < at[m])
    && (forall i: nat, name :: FirstUnder(regs, i, name) ==> i in at)
  }

  lemma PicksKept<S, R>(regs: seq<Registration<S, R>>, names: seq<string>, at: seq<nat>, n: nat)
    requires n + 1 == |regs| && Picks(regs[..n], names, at) && Mentions(regs[..n], regs[n].name)
    ensures Picks(regs, names, at)
  {
    forall k | 0 <= k < |at|
      ensures FirstUnder(regs, at[k], names[k])
    {
      FirstUnderPrefix(regs, n, at[k], names[k]);
    }
    forall i: nat, name | FirstUnder(regs, i, name)
      ensures i in at
    {
      if i < n { FirstUnderPrefix(regs, n, i, name); }
    }
  }

  lemma PicksExtended<S, R>(regs: seq<Registration<S, R>>, names: seq<string>, at: seq<nat>, n: nat)
    requires n + 1 == |regs| && Picks(regs[..n], names, at) && !Mentions(regs[..n], regs[n].name)
    ensures Picks(regs, names + [regs[n].name], at + [n])
  {
    forall k | 0 <= k < |at|
      ensures FirstUnder(regs, at[k], names[k]) && at[k] < n
    {
      assert FirstUnder(regs[..n], at[k], names[k]);
    }
    forall i: nat, name | FirstUnder(regs, i, name)
      ensures i in at + [n]
    {
      if i < n { FirstUnderPrefix(regs, n, i, name); }
    }
  }

  /** Every hook is handed to the sorter exactly once, at its first registration, in the order of those. */
  lemma {:induction false} SortedOnce<S, R>(regs: seq<Registration<S, R>>)
    returns (at: seq<nat>)
    ensures Picks(regs, AfterAll(regs).sorted, at)
  {
    at := [];
    if |regs| > 0 {
      var n := |regs| - 1;
      at := SortedOnce(regs[..n]);
      ArraysAreExact(regs[..n], regs[n].name);
      if Mentions(regs[..n], regs[n].name) {
        PicksKept(regs, AfterAll(regs[..n]).sorted, at, n);
      } else {
        PicksExtended(regs, AfterAll(regs[..n]).sorted, at, n);
        at := at + [n];
      }
    }
  }

  lemma SortedNamesDistinct<S, R>(regs: seq<Registration<S, R>>, k: nat, m: nat)
    requires k < m < |AfterAll(regs).sorted|
    ensures AfterAll(regs).sorted[k] != AfterAll(regs).sorted[m]
  {
    var at := SortedOnce(regs);
  }

  /** A hook run before anything is sorted calls the functions registered under its name, once each, in call order. */
  method RunUnsorted<S, R>(regs: seq<Registration<S, R>>, name: string, hooks: HookStruct<S, R>, st0: S, ghost sorter: Sorter)
    returns (st: S, calls: seq<Call<S, R>>)
    requires hooks.TableWith(sorter) == AfterAll(regs)
    ensures |calls| == |Under(name, regs)| && AllInTurn(Under(name, regs), st0, calls, st)
  {
    var link := hooks.Get(name, regs, sorter);
    ArraysAreExact(regs, name);
    st, calls := RunVoid(link, st0);
  }
}
