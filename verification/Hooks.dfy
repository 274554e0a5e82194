/** Hook registration and the hook runners. Hook functions may change any state, held here in S. */
module Hooks {
  import opened Options

  /** One entry of a hook array. The arguments of the hook are part of the state it runs in. */
  datatype Record<!S, !R> = Record(
    pFunc: S -> (R, S), szName: string, aszPredecessors: seq<string>, aszSuccessors: seq<string>, nOrder: int)

  /** One call of a hook function: who was called, in which state, what came back, what state it left. */
  datatype Call<!S, !R> = Call(hook: Record<S, R>, before: S, rv: R, after: S)

  datatype Outcome<!S, !R> = Outcome(rv: R, st: S, calls: seq<Call<S, R>>)

  function Invoke<S, R>(hook: Record<S, R>, st: S): Call<S, R> {
    var (rv, after) := hook.pFunc(st);
    Call(hook, st, rv, after)
  }

  /** Call hooks in order until one returns a value that stops the run; default if none does. */
  function Run<S, R>(hooks: seq<Record<S, R>>, st: S, stop: R -> bool, default: R): Outcome<S, R> {
    if |hooks| == 0 then Outcome(default, st, [])
    else
      var c := Invoke(hooks[0], st);
      if stop(c.rv) then Outcome(c.rv, c.after, [c])
      else Then([c], Run(hooks[1..], c.after, stop, default))
  }

  function Then<S, R>(calls: seq<Call<S, R>>, out: Outcome<S, R>): Outcome<S, R> {
    Outcome(out.rv, out.st, calls + out.calls)
  }

  function Neither<R(==)>(ok: R, decline: R): R -> bool {
    rv => rv != ok && rv != decline
  }

  function RunAll<S, R(==)>(hooks: seq<Record<S, R>>, st: S, ok: R, decline: R): Outcome<S, R> {
    Run(hooks, st, Neither(ok, decline), ok)
  }

  function RunFirst<S, R(==)>(hooks: seq<Record<S, R>>, st: S, decline: R): Outcome<S, R> {
    Run(hooks, st, Neither(decline, decline), decline)
  }

  // ---- what a run is, without recursion ----

  /** The i-th call is of the i-th function, with what that returned and left, in the state the call before left. */
  ghost predicate InTurn<S, R>(hooks: seq<Record<S, R>>, st: S, calls: seq<Call<S, R>>, i: nat)
    requires i < |calls| && i < |hooks|
  {
    && calls[i].hook == hooks[i]
    && calls[i].before == (if i == 0 then st else calls[i - 1].after)
    && (calls[i].rv, calls[i].after) == hooks[i].pFunc(calls[i].before)
  }

  /** The calls are of the first |calls| functions, each in its turn, and st' is the state they left. */
  ghost predicate AllInTurn<S, R>(hooks: seq<Record<S, R>>, st: S, calls: seq<Call<S, R>>, st': S) {
    && |calls| <= |hooks|
    && (forall i :: 0 <= i < |calls| ==> InTurn(hooks, st, calls, i))
    && st' == (if |calls| == 0 then st else calls[|calls| - 1].after)
  }

  /**
   * Every call is in turn. Only the last call may
   * stop the run; its value is then the result. Otherwise every hook was called.
   */
  ghost predicate IsRun<S, R>(hooks: seq<Record<S, R>>, st: S, stop: R -> bool, default: R, out: Outcome<S, R>) {
    var n := |out.calls|;
    && AllInTurn(hooks, st, out.calls, out.st)
    && (forall i :: 0 <= i < n - 1 ==> !stop(out.calls[i].rv))
    && if n > 0 && stop(out.calls[n - 1].rv) then out.rv == out.calls[n - 1].rv
       else n == |hooks| && out.rv == default
  }

  /**
   * What RUN_FIRST promises: all calls but the last returned decline. If the last did not, its value
   * is the result, otherwise every function was called and the result is decline.
   */
  ghost predicate FirstAnswer<S, R>(hooks: seq<Record<S, R>>, st: S, decline: R, out: Outcome<S, R>) {
    var n := |out.calls|;
    && AllInTurn(hooks, st, out.calls, out.st)
    && (forall i :: 0 <= i < n - 1 ==> out.calls[i].rv == decline)
    && if n > 0 && out.calls[n - 1].rv != decline then out.rv == out.calls[n - 1].rv
       else n == |hooks| && out.rv == decline
  }

  /**
   * What RUN_ALL promises: all calls but the last returned ok or decline. If the last did not, its
   * value is the result, otherwise every function was called and the result is ok.
   */
  ghost predicate AllAnswer<S, R>(hooks: seq<Record<S, R>>, st: S, ok: R, decline: R, out: Outcome<S, R>) {
    var n := |out.calls|;
    && AllInTurn(hooks, st, out.calls, out.st)
    && (forall i :: 0 <= i < n - 1 ==> out.calls[i].rv == ok || out.calls[i].rv == decline)
    && if n > 0 && out.calls[n - 1].rv != ok && out.calls[n - 1].rv != decline then out.rv == out.calls[n - 1].rv
       else n == |hooks| && out.rv == ok
  }

  lemma {:induction false} RunIsRun<S, R>(hooks: seq<Record<S, R>>, st: S, stop: R -> bool, default: R)
    ensures IsRun(hooks, st, stop, default, Run(hooks, st, stop, default))
  {
    if |hooks| > 0 && !stop(Invoke(hooks[0], st).rv) {
      var c := Invoke(hooks[0], st);
      var out, rest := Run(hooks, st, stop, default), Run(hooks[1..], c.after, stop, default);
      RunIsRun(hooks[1..], c.after, stop, default);
      forall i | 0 <= i < |out.calls|
        ensures InTurn(hooks, st, out.calls, i)
      {
        if i > 0 {
          assert InTurn(hooks[1..], c.after, rest.calls, i - 1);
          assert out.calls[i] == rest.calls[i - 1];
        }
      }
    }
  }

  lemma {:induction false} OnlyRun<S, R>(hooks: seq<Record<S, R>>, st: S, stop: R -> bool, default: R, out: Outcome<S, R>)
    requires IsRun(hooks, st, stop, default, out)
    ensures out == Run(hooks, st, stop, default)
  {
    if |hooks| > 0 {
      var c := Invoke(hooks[0], st);
      assert InTurn(hooks, st, out.calls, 0);
      if stop(c.rv) {
      } else {
        var rest := Outcome(out.rv, out.st, out.calls[1..]);
        forall i | 0 <= i < |rest.calls|
          ensures InTurn(hooks[1..], c.after, rest.calls, i)
        {
          assert InTurn(hooks, st, out.calls, i + 1);
        }
        OnlyRun(hooks[1..], c.after, stop, default, rest);
      }
    }
  }

  /** The outcome of a runner is the one and only run: result, final state and calls together. */
  lemma RunIsExact<S, R>(hooks: seq<Record<S, R>>, st: S, stop: R -> bool, default: R, out: Outcome<S, R>)
    ensures out == Run(hooks, st, stop, default) <==> IsRun(hooks, st, stop, default, out)
  {
    RunIsRun(hooks, st, stop, default);
    if IsRun(hooks, st, stop, default, out) {
      OnlyRun(hooks, st, stop, default, out);
    }
  }

  /** The outcome of RUN_FIRST is the one that keeps its promise. */
  lemma RunFirstIsExact<S, R>(hooks: seq<Record<S, R>>, st: S, decline: R, out: Outcome<S, R>)
    ensures out == RunFirst(hooks, st, decline) <==> FirstAnswer(hooks, st, decline, out)
  {
    RunIsExact(hooks, st, Neither(decline, decline), decline, out);
  }

  /** The outcome of RUN_ALL is the one that keeps its promise. */
  lemma RunAllIsExact<S, R>(hooks: seq<Record<S, R>>, st: S, ok: R, decline: R, out: Outcome<S, R>)
    ensures out == RunAll(hooks, st, ok, decline) <==> AllAnswer(hooks, st, ok, decline, out)
  {
    RunIsExact(hooks, st, Neither(ok, decline), ok, out);
  }

  // ---- composition ----

  ghost predicate Stopped<S, R>(out: Outcome<S, R>, stop: R -> bool) {
    |out.calls| > 0 && stop(out.calls[|out.calls| - 1].rv)
  }

  lemma ThenThen<S, R>(a: seq<Call<S, R>>, b: seq<Call<S, R>>, out: Outcome<S, R>)
    ensures Then(a, Then(b, out)) == Then(a + b, out)
  {
  }

  /** Running two lists in a row: the second list runs if and only if the first did not stop. */
  lemma {:induction false} RunConcat<S, R>(xs: seq<Record<S, R>>, ys: seq<Record<S, R>>, st: S, stop: R -> bool, default: R)
    ensures var first := Run(xs, st, stop, default);
      Run(xs + ys, st, stop, default) ==
        if Stopped(first, stop) then first else Then(first.calls, Run(ys, first.st, stop, default))
  {
    if |xs| == 0 {
      assert xs + ys == ys;
      assert [] + Run(ys, st, stop, default).calls == Run(ys, st, stop, default).calls;
    } else {
      var c := Invoke(xs[0], st);
      assert (xs + ys)[0] == xs[0] && (xs + ys)[1..] == xs[1..] + ys;
      if !stop(c.rv) {
        var rest := Run(xs[1..], c.after, stop, default);
        RunConcat(xs[1..], ys, c.after, stop, default);
        ThenThen([c], rest.calls, Run(ys, rest.st, stop, default));
      }
    }
  }

  // ---- RUN_ALL against RUN_FIRST ----

  lemma {:induction false} FirstLooksLike<S, R>(hooks: seq<Record<S, R>>, st: S, ok: R, decline: R)
    requires ok != decline
    ensures var first, all := RunFirst(hooks, st, decline), RunAll(hooks, st, ok, decline);
      && |first.calls| <= |hooks| && |first.calls| <= |all.calls|
      && (first.rv != ok && first.rv != decline ==> first == all)
      && (first.rv == ok && |first.calls| == |hooks| ==> first == all)
      && (first.rv == ok && |first.calls| < |hooks| ==> |first.calls| < |all.calls|)
      && (first.rv == decline ==> all.rv == ok)
  {
    if |hooks| > 0 {
      var c := Invoke(hooks[0], st);
      if c.rv == decline {
        FirstLooksLike(hooks[1..], c.after, ok, decline);
      } else if c.rv == ok {
        var rest := RunAll(hooks[1..], c.after, ok, decline);
        assert if |hooks| > 1 then |rest.calls| >= 1 else [c] + rest.calls == [c];
      }
    }
  }

  /**
   * When the two runners agree, in result, state and calls: always if ok and decline are the same
   * value; otherwise when RUN_FIRST came to a value that stops both, or found ok at the last hook.
   */
  lemma AllVersusFirst<S, R>(hooks: seq<Record<S, R>>, st: S, ok: R, decline: R)
    ensures var first := RunFirst(hooks, st, decline);
      RunAll(hooks, st, ok, decline) == first <==>
        ok == decline
        || (first.rv != ok && first.rv != decline)
        || (first.rv == ok && |first.calls| == |hooks|)
  {
    if ok != decline {
      FirstLooksLike(hooks, st, ok, decline);
    }
  }

  // ---- the runners as they loop ----

  function HooksOf<S, R>(link: Option<seq<Record<S, R>>>): seq<Record<S, R>> {
    if link.Some? then link.value else []
  }

  lemma RunUnrolled<S, R>(hooks: seq<Record<S, R>>, n: nat, st: S, stop: R -> bool, default: R, calls: seq<Call<S, R>>)
    requires n < |hooks|
    ensures var c := Invoke(hooks[n], st);
      Then(calls, Run(hooks[n..], st, stop, default)) ==
        if stop(c.rv) then Outcome(c.rv, c.after, calls + [c])
        else Then(calls + [c], Run(hooks[n + 1..], c.after, stop, default))
  {
  }

  /** APR_IMPLEMENT_EXTERNAL_HOOK_RUN_ALL: break on a stopping value, reset rv otherwise. */
  method RunAllExternal<S, R(==)>(link: Option<seq<Record<S, R>>>, st0: S, ok: R, decline: R)
    returns (rv: R, st: S, calls: seq<Call<S, R>>)
    ensures Outcome(rv, st, calls) == RunAll(HooksOf(link), st0, ok, decline)
    ensures AllAnswer(if link.Some? then link.value else [], st0, ok, decline, Outcome(rv, st, calls))
  {
    rv, st, calls := ok, st0, [];
    if link.Some? {
      var pHook := link.value;
      var n := 0;
      assert pHook[0..] == pHook;
      while n < |pHook|
        invariant 0 <= n <= |pHook| && rv == ok
        invariant RunAll(pHook, st0, ok, decline) == Then(calls, RunAll(pHook[n..], st, ok, decline))
      {
        RunUnrolled(pHook, n, st, Neither(ok, decline), ok, calls);
        var c := Invoke(pHook[n], st);
        rv, st, calls := c.rv, c.after, calls + [c];
        if rv != ok && rv != decline {
          break;
        }
        rv := ok;
        n := n + 1;
      }
    }
    RunAllIsExact(HooksOf(link), st0, ok, decline, Outcome(rv, st, calls));
  }

  /** APR_IMPLEMENT_OPTIONAL_HOOK_RUN_ALL: return from inside the loop. */
  method RunAllOptional<S, R(==)>(pHookArray: Option<seq<Record<S, R>>>, st0: S, ok: R, decline: R)
    returns (rv: R, st: S, calls: seq<Call<S, R>>)
    ensures Outcome(rv, st, calls) == RunAll(HooksOf(pHookArray), st0, ok, decline)
    ensures AllAnswer(if pHookArray.Some? then pHookArray.value else [], st0, ok, decline, Outcome(rv, st, calls))
  {
    st, calls := st0, [];
    if pHookArray.None? {
      return ok, st, calls;
    }
    var pHook := pHookArray.value;
    assert pHook[0..] == pHook;
    for n := 0 to |pHook|
      invariant RunAll(pHook, st0, ok, decline) == Then(calls, RunAll(pHook[n..], st, ok, decline))
    {
      RunUnrolled(pHook, n, st, Neither(ok, decline), ok, calls);
      var c := Invoke(pHook[n], st);
      rv, st, calls := c.rv, c.after, calls + [c];
      if rv != ok && rv != decline {
        RunAllIsExact(pHook, st0, ok, decline, Outcome(rv, st, calls));
        return rv, st, calls;
      }
    }
    RunAllIsExact(pHook, st0, ok, decline, Outcome(ok, st, calls));
    return ok, st, calls;
  }

  /** APR_IMPLEMENT_EXTERNAL_HOOK_RUN_FIRST */
  method RunFirstExternal<S, R(==)>(link: Option<seq<Record<S, R>>>, st0: S, decline: R)
    returns (rv: R, st: S, calls: seq<Call<S, R>>)
    ensures Outcome(rv, st, calls) == RunFirst(HooksOf(link), st0, decline)
    ensures FirstAnswer(if link.Some? then link.value else [], st0, decline, Outcome(rv, st, calls))
  {
    rv, st, calls := decline, st0, [];
    if link.Some? {
      var pHook := link.value;
      var n := 0;
      assert pHook[0..] == pHook;
      while n < |pHook|
        invariant 0 <= n <= |pHook| && rv == decline
        invariant RunFirst(pHook, st0, decline) == Then(calls, RunFirst(pHook[n..], st, decline))
      {
        RunUnrolled(pHook, n, st, Neither(decline, decline), decline, calls);
        var c := Invoke(pHook[n], st);
        rv, st, calls := c.rv, c.after, calls + [c];
        if rv != decline {
          break;
        }
        n := n + 1;
      }
    }
    RunFirstIsExact(HooksOf(link), st0, decline, Outcome(rv, st, calls));
  }

  /** APR_IMPLEMENT_EXTERNAL_HOOK_VOID: every hook once, in array order, each in the state the last one left. */
  method RunVoid<S, R>(link: Option<seq<Record<S, R>>>, st0: S)
    returns (st: S, calls: seq<Call<S, R>>)
    ensures link.None? ==> st == st0 && calls == []
    ensures link.Some? ==> |calls| == |link.value| && AllInTurn(link.value, st0, calls, st)
  {
    st, calls := st0, [];
    if link.Some? {
      var pHook := link.value;
      for n := 0 to |pHook|
        invariant |calls| == n && AllInTurn(pHook, st0, calls, st)
      {
        var c := Invoke(pHook[n], st);
        forall i | 0 <= i < n + 1
          ensures InTurn(pHook, st0, calls + [c], i)
        {
          assert i < n ==> InTurn(pHook, st0, calls, i);
        }
        st, calls := c.after, calls + [c];
      }
    }
  }
}
