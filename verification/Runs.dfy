/** Sequences of calls to a remote backend. A caller works through a plan of calls one by one
    and stops at the first that fails. */
module Runs {

  /** One call, whether it succeeded, and the state of the backend after it. */
  datatype Event<S, C> = Event(call: C, ok: bool, after: S)

  /** The state after the first `k` calls. */
  ghost function StateAt<S, C>(s: S, log: seq<Event<S, C>>, k: nat): S
    requires k <= |log|
  {
    if k == 0 then s else log[k - 1].after
  }

  /** The calls of `plan` in order, up to the first that fails. */
  ghost predicate Follows<S, C>(plan: seq<C>, log: seq<Event<S, C>>) {
    && |log| <= |plan|
    && (forall k :: 0 <= k < |log| ==> log[k].call == plan[k])
    && (forall k :: 0 <= k < |log| - 1 ==> log[k].ok)
    && (|log| < |plan| ==> |log| > 0 && !log[|log| - 1].ok)
  }

  ghost predicate AllOk<S, C>(log: seq<Event<S, C>>) {
    forall k :: 0 <= k < |log| ==> log[k].ok
  }

  /** The whole plan, without a failure. */
  ghost predicate Complete<S, C>(plan: seq<C>, log: seq<Event<S, C>>) {
    |log| == |plan| && AllOk(log)
  }

  lemma {:induction false} StatePrefix<S, C>(s: S, run: seq<Event<S, C>>, more: seq<Event<S, C>>, k: nat)
    requires k <= |run|
    ensures StateAt(s, run + more, k) == StateAt(s, run, k)
  {
  }

  lemma {:induction false} StateThen<S, C>(s: S, run: seq<Event<S, C>>, more: seq<Event<S, C>>, k: nat)
    requires k <= |more|
    ensures StateAt(s, run + more, |run| + k) == StateAt(StateAt(s, run, |run|), more, k)
  {
  }

  /** A plan that went through is followed by the next one. */
  lemma {:induction false} FollowsThen<S, C>(p: seq<C>, q: seq<C>, run: seq<Event<S, C>>, more: seq<Event<S, C>>)
    requires Follows(p, run) && AllOk(run) && Follows(q, more)
    ensures Follows(p + q, run + more) && AllOk(run + more) == AllOk(more)
  {
    assert |run| == |p|;
    var all := run + more;
    assert forall k :: 0 <= k < |more| ==> all[|run| + k] == more[k];
  }

  /** No call from the `first` to the one before `next` is made to fail. */
  ghost predicate NoFailure(fails: nat -> bool, first: nat, next: nat) {
    forall n :: first <= n < next ==> !fails(n)
  }

  /** The same, counted call by call. */
  ghost predicate NoneFails(fails: nat -> bool, first: nat, next: nat) {
    first >= next || (!fails(next - 1) && NoneFails(fails, first, next - 1))
  }

  lemma {:induction false} NoneFailsMeans(fails: nat -> bool, first: nat, next: nat)
    ensures NoneFails(fails, first, next) <==> NoFailure(fails, first, next)
  {
    if first < next {
      NoneFailsMeans(fails, first, next - 1);
    }
  }

  /** Round `i` begins with call number `marks[i]`; no call of it is made to fail. */
  ghost predicate CleanRound(fails: nat -> bool, marks: seq<nat>, i: nat)
    requires i + 1 < |marks|
  {
    NoFailure(fails, marks[i], marks[i + 1])
  }

  // ----- calls with their effects -----

  /** A call that succeeds has the effect that `step` gives it, one that fails has none. */
  ghost predicate Takes<S, C>(step: (S, C, S) -> bool, s: S, e: Event<S, C>) {
    if e.ok then step(s, e.call, e.after) else e.after == s
  }

  ghost predicate TakesAt<S, C>(step: (S, C, S) -> bool, s: S, log: seq<Event<S, C>>, k: nat)
    requires k < |log|
  {
    Takes(step, StateAt(s, log, k), log[k])
  }

  /** A run of `plan` from `s`: its calls in order, up to and including the first that fails,
      each with its effect. */
  ghost predicate IsRun<S, C>(step: (S, C, S) -> bool, plan: seq<C>, s: S, log: seq<Event<S, C>>) {
    Follows(plan, log) && forall k :: 0 <= k < |log| ==> TakesAt(step, s, log, k)
  }

  /** `run` is a run of `plan` from `s` to `now`, and `ok` tells whether it went through. */
  ghost predicate Ran<S, C>(step: (S, C, S) -> bool, plan: seq<C>, s: S, run: seq<Event<S, C>>, now: S, ok: bool) {
    IsRun(step, plan, s, run) && now == StateAt(s, run, |run|) && ok == AllOk(run)
  }

  /** `run` is the part of `plan` that has been carried out, call by call and all of it successfully. */
  ghost predicate SoFar<S, C>(step: (S, C, S) -> bool, plan: seq<C>, s: S, run: seq<Event<S, C>>, now: S) {
    if run == [] then now == s
    else
      var n := |run| - 1;
      && n < |plan| && run[n].ok && run[n].call == plan[n] && run[n].after == now
      && SoFar(step, plan, s, run[..n], StateAt(s, run, n)) && step(StateAt(s, run, n), run[n].call, now)
  }

  lemma {:induction false} SoFarCalls<S, C>(step: (S, C, S) -> bool, plan: seq<C>, s: S, run: seq<Event<S, C>>, now: S)
    requires SoFar(step, plan, s, run, now)
    ensures |run| <= |plan| && AllOk(run) && now == StateAt(s, run, |run|)
    ensures forall k :: 0 <= k < |run| ==> run[k].call == plan[k]
    ensures forall k :: 0 <= k < |run| ==> TakesAt(step, s, run, k)
  {
    if run != [] {
      var n := |run| - 1;
      SoFarCalls(step, plan, s, run[..n], StateAt(s, run, n));
      forall k | 0 <= k < n ensures TakesAt(step, s, run, k) {
        assert TakesAt(step, s, run[..n], k);
      }
    }
  }

  lemma {:induction false} SoFarAll<S, C>(step: (S, C, S) -> bool, plan: seq<C>, s: S, run: seq<Event<S, C>>, now: S)
    requires SoFar(step, plan, s, run, now) && |run| == |plan|
    ensures Ran(step, plan, s, run, now, true)
  {
    SoFarCalls(step, plan, s, run, now);
  }

  lemma {:induction false} OneMore<S, C>(step: (S, C, S) -> bool, plan: seq<C>, s: S, run: seq<Event<S, C>>, now: S,
                                         e: Event<S, C>)
    requires SoFar(step, plan, s, run, now) && |run| < |plan|
    requires e.call == plan[|run|] && Takes(step, now, e)
    ensures e.ok ==> SoFar(step, plan, s, run + [e], e.after)
    ensures !e.ok ==> Ran(step, plan, s, run + [e], e.after, false)
  {
    var run' := run + [e];
    SoFarCalls(step, plan, s, run, now);
    assert run'[|run|] == e && run'[..|run|] == run;
    forall k | 0 <= k < |run'|
      ensures TakesAt(step, s, run', k)
    {
      assert StateAt(s, run', k) == StateAt(s, run, k);
      assert k < |run| ==> TakesAt(step, s, run, k);
    }
  }

  lemma {:induction false} Regroup<T>(a: seq<T>, b: seq<T>, c: seq<T>)
    ensures (a + b) + c == a + (b + c)
  {
  }

  /** The same as seen from a loop that keeps `log`, of which `run` is the part since `log0`. */
  lemma {:induction false} OneMoreLogged<S, C>(step: (S, C, S) -> bool, plan: seq<C>, s: S, log0: seq<Event<S, C>>,
                                               run: seq<Event<S, C>>, now: S, e: Event<S, C>)
    requires SoFar(step, plan, s, run, now) && |run| < |plan|
    requires e.call == plan[|run|] && Takes(step, now, e)
    ensures log0 + run + [e] == log0 + (run + [e])
    ensures e.ok ==> SoFar(step, plan, s, run + [e], e.after)
    ensures !e.ok ==> Ran(step, plan, s, run + [e], e.after, false)
  {
    OneMore(step, plan, s, run, now, e);
    Regroup(log0, run, [e]);
  }

  /** A plan that went through is followed by the next one. */
  lemma {:induction false} RunThen<S, C>(step: (S, C, S) -> bool, p: seq<C>, q: seq<C>, s: S, run: seq<Event<S, C>>,
                                         mid: S, more: seq<Event<S, C>>, now: S, ok: bool)
    requires Ran(step, p, s, run, mid, true) && Ran(step, q, mid, more, now, ok)
    ensures Ran(step, p + q, s, run + more, now, ok)
  {
    FollowsThen(p, q, run, more);
    StateThen(s, run, more, |more|);
    forall k | 0 <= k < |run + more|
      ensures TakesAt(step, s, run + more, k)
    {
      if k < |run| {
        assert TakesAt(step, s, run, k);
        StatePrefix(s, run, more, k);
      } else {
        assert TakesAt(step, mid, more, k - |run|);
        StateThen(s, run, more, k - |run|);
      }
    }
  }

  /** A plan that did not go through is as far as a longer plan gets. */
  lemma {:induction false} RunShort<S, C>(step: (S, C, S) -> bool, p: seq<C>, q: seq<C>, s: S,
                                          run: seq<Event<S, C>>, now: S)
    requires Ran(step, p, s, run, now, false)
    ensures Ran(step, p + q, s, run, now, false)
  {
  }

  // ----- how many calls -----

  ghost function Successes<S, C>(log: seq<Event<S, C>>): nat {
    if log == [] then 0
    else Successes(log[..|log| - 1]) + if log[|log| - 1].ok then 1 else 0
  }

  ghost function AllSuccesses<S, C>(logs: seq<seq<Event<S, C>>>): nat {
    if logs == [] then 0 else AllSuccesses(logs[..|logs| - 1]) + Successes(logs[|logs| - 1])
  }

  ghost function AllCalls<S, C>(logs: seq<seq<Event<S, C>>>): nat {
    if logs == [] then 0 else AllCalls(logs[..|logs| - 1]) + |logs[|logs| - 1]|
  }

  /** Nothing is called after a failure. */
  ghost predicate StopsAtFailure<S, C>(log: seq<Event<S, C>>) {
    forall k :: 0 <= k < |log| - 1 ==> log[k].ok
  }

  lemma {:induction false} SuccessesAllOk<S, C>(log: seq<Event<S, C>>)
    requires AllOk(log)
    ensures Successes(log) == |log|
  {
    if log != [] {
      SuccessesAllOk(log[..|log| - 1]);
    }
  }

  lemma {:induction false} SuccessesStop<S, C>(log: seq<Event<S, C>>)
    requires StopsAtFailure(log)
    ensures Successes(log) == if AllOk(log) then |log| else |log| - 1
  {
    if log != [] {
      SuccessesAllOk(log[..|log| - 1]);
    }
  }

  /** At most one call of each sequence fails. */
  lemma {:induction false} CallsAndSuccesses<S, C>(logs: seq<seq<Event<S, C>>>)
    requires forall i :: 0 <= i < |logs| ==> StopsAtFailure(logs[i])
    ensures AllCalls(logs) <= AllSuccesses(logs) + |logs|
  {
    if logs != [] {
      CallsAndSuccesses(logs[..|logs| - 1]);
      SuccessesStop(logs[|logs| - 1]);
    }
  }
}
