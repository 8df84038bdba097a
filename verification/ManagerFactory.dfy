/** pkg/resource/resolver_endpoint/manager_factory.go: resource managers are cached under a
    formatted key, and callers of ManagerFor interleave between its two critical sections. */
module ManagerFactory {

  /** The arguments of ManagerFor. The client configuration a caller passes is one made for its role;
      two callers with the same role may still pass different ones. */
  datatype Request = Request(account: string, region: string, roleARN: string, session: nat)

  /** A manager remembers the account, the region and the client configuration it was built with. */
  datatype Manager = Manager(account: string, region: string, roleARN: string, session: nat)

  function NewResourceManager(q: Request): Manager {
    Manager(q.account, q.region, q.roleARN, q.session)
  }

  function Key(q: Request): string {
    q.account + "/" + q.region + "/" + q.roleARN
  }

  ghost predicate Fits(m: Manager, q: Request) {
    m.account == q.account && m.region == q.region && m.roleARN == q.roleARN
  }

  ghost predicate SameIdentity(p: Request, q: Request) {
    p.account == q.account && p.region == q.region && p.roleARN == q.roleARN
  }

  // ----- the key -----

  ghost predicate NoSlash(s: string) {
    forall i :: 0 <= i < |s| ==> s[i] != '/'
  }

  /** A string splits in one way only at its first slash. */
  lemma {:induction false} FirstSlash(a: string, x: string, b: string, y: string)
    requires NoSlash(a) && NoSlash(b)
    requires a + "/" + x == b + "/" + y
    ensures a == b && x == y
  {
    var s, t := a + "/" + x, b + "/" + y;
    assert s[|a|] == '/' && t[|b|] == '/';
    assert forall i :: 0 <= i < |a| ==> s[i] == a[i];
    assert forall i :: 0 <= i < |b| ==> t[i] == b[i];
    assert |a| == |b|;
    assert s[..|a|] == a && t[..|b|] == b;
    assert s[|a| + 1..] == x && t[|b| + 1..] == y;
  }

  /** Roles contain slashes; as long as accounts and regions do not, the key tells requests apart. */
  lemma {:induction false} KeyInjective(p: Request, q: Request)
    requires NoSlash(p.account) && NoSlash(p.region) && NoSlash(q.account) && NoSlash(q.region)
    requires Key(p) == Key(q)
    ensures SameIdentity(p, q)
  {
    assert Key(p) == p.account + "/" + (p.region + "/" + p.roleARN);
    assert Key(q) == q.account + "/" + (q.region + "/" + q.roleARN);
    FirstSlash(p.account, p.region + "/" + p.roleARN, q.account, q.region + "/" + q.roleARN);
    FirstSlash(p.region, p.roleARN, q.region, q.roleARN);
  }

  /** A slash in a region is enough to make two identities share a key. */
  lemma {:induction false} KeyCollision()
    ensures var p, q := Request("1", "a/b", "c", 0), Request("1", "a", "b/c", 0);
      Key(p) == Key(q) && !SameIdentity(p, q)
  {
    var p, q := Request("1", "a/b", "c", 0), Request("1", "a", "b/c", 0);
    assert Key(p) == "1/a/b/c" == Key(q);
    assert p.region[1] == '/' && |q.region| == 1;
  }

  // ----- one caller -----

  class ResourceManagerFactory {
    var rmCache: map<string, Manager>

    constructor ()
      ensures rmCache == map[]
    {
      rmCache := map[];
    }

    /** Without other callers: a cached manager, or a new one that is cached. */
    method ManagerFor(q: Request) returns (rm: Manager)
      modifies this
      ensures rm == if Key(q) in old(rmCache) then old(rmCache)[Key(q)] else NewResourceManager(q)
      ensures Key(q) !in old(rmCache) ==>
        rm.account == q.account && rm.region == q.region && rm.roleARN == q.roleARN && rm.session == q.session
      ensures rmCache == old(rmCache)[Key(q) := rm]
    {
      var rmId := Key(q);
      if rmId in rmCache {
        return rmCache[rmId];
      }
      rm := NewResourceManager(q);
      rmCache := rmCache[rmId := rm];
    }
  }

  // ----- many callers -----

  /** Where a caller is: before the lookup, between a lookup that missed and the insertion, or done. */
  datatype Caller =
    | Calling(request: Request)
    | Missed(request: Request)
    | Served(request: Request, manager: Manager)

  datatype State = State(cache: map<string, Manager>, callers: seq<Caller>)

  /** The read-locked section. */
  ghost predicate Lookup(s: State, i: int, t: State) {
    && 0 <= i < |s.callers| && s.callers[i].Calling?
    && var q := s.callers[i].request;
       t == s.(callers := s.callers[i := if Key(q) in s.cache then Served(q, s.cache[Key(q)]) else Missed(q)])
  }

  /** The write-locked section, which does not look again. */
  ghost predicate Insert(s: State, i: int, t: State) {
    && 0 <= i < |s.callers| && s.callers[i].Missed?
    && var q := s.callers[i].request;
       t == State(s.cache[Key(q) := NewResourceManager(q)], s.callers[i := Served(q, NewResourceManager(q))])
  }

  ghost predicate Next(s: State, t: State) {
    exists i :: Lookup(s, i, t) || Insert(s, i, t)
  }

  ghost function Start(requests: seq<Request>): State {
    State(map[], seq(|requests|, i requires 0 <= i < |requests| => Calling(requests[i])))
  }

  ghost predicate NextAt(run: seq<State>, n: nat)
    requires n + 1 < |run|
  {
    Next(run[n], run[n + 1])
  }

  /** An interleaving of callers with these requests. */
  ghost predicate Interleaving(requests: seq<Request>, run: seq<State>) {
    |run| > 0 && run[0] == Start(requests) && forall n :: 0 <= n < |run| - 1 ==> NextAt(run, n)
  }

  /** Every caller that is done has a manager for its own account, region and role. */
  ghost predicate AllFit(s: State) {
    forall i :: 0 <= i < |s.callers| && s.callers[i].Served? ==> Fits(s.callers[i].manager, s.callers[i].request)
  }

  /** Requests with the same key are for the same account, region and role. */
  ghost predicate Separate(requests: seq<Request>) {
    forall i, j :: 0 <= i < |requests| && 0 <= j < |requests| && Key(requests[i]) == Key(requests[j]) ==>
      SameIdentity(requests[i], requests[j])
  }

  /** The entry under this key is the manager of one of the requests with this key. */
  ghost predicate Entry(requests: seq<Request>, key: string, m: Manager) {
    exists i :: 0 <= i < |requests| && Key(requests[i]) == key && m == NewResourceManager(requests[i])
  }

  ghost predicate Invariant(requests: seq<Request>, s: State) {
    && |s.callers| == |requests|
    && (forall i :: 0 <= i < |requests| ==> s.callers[i].request == requests[i])
    && (forall k :: k in s.cache ==> Entry(requests, k, s.cache[k]))
    && (forall i :: 0 <= i < |requests| && s.callers[i].Served? ==>
          Entry(requests, Key(requests[i]), s.callers[i].manager))
  }

  lemma {:induction false} LookupKeepsInvariant(requests: seq<Request>, s: State, i: int, t: State)
    requires Invariant(requests, s) && Lookup(s, i, t)
    ensures Invariant(requests, t)
  {
  }

  lemma {:induction false} InsertKeepsInvariant(requests: seq<Request>, s: State, i: int, t: State)
    requires Invariant(requests, s) && Insert(s, i, t)
    ensures Invariant(requests, t)
  {
    assert Entry(requests, Key(requests[i]), NewResourceManager(requests[i]));
  }

  lemma {:induction false} StepKeepsInvariant(requests: seq<Request>, s: State, t: State)
    requires Invariant(requests, s) && Next(s, t)
    ensures Invariant(requests, t)
  {
    var i :| Lookup(s, i, t) || Insert(s, i, t);
    if Insert(s, i, t) {
      InsertKeepsInvariant(requests, s, i, t);
    } else {
      LookupKeepsInvariant(requests, s, i, t);
    }
  }

  /** In every interleaving, whatever is cached or handed out was built for a request with that
      very key. */
  lemma {:induction false} InterleavingKeepsInvariant(requests: seq<Request>, run: seq<State>, n: nat)
    requires Interleaving(requests, run) && n < |run|
    ensures Invariant(requests, run[n])
  {
    if n > 0 {
      InterleavingKeepsInvariant(requests, run, n - 1);
      assert NextAt(run, n - 1);
      StepKeepsInvariant(requests, run[n - 1], run[n]);
    }
  }

  /** A caller that is served gets a manager built with the account, region, role and client
      configuration of one of the callers with its key. */
  lemma {:induction false} ServedByOne(requests: seq<Request>, run: seq<State>, n: nat, i: nat) returns (j: nat)
    requires Interleaving(requests, run) && n < |run| && i < |requests|
    requires |run[n].callers| == |requests| && run[n].callers[i].Served?
    ensures j < |requests| && Key(requests[j]) == Key(requests[i])
    ensures var m, q := run[n].callers[i].manager, requests[j];
      m.account == q.account && m.region == q.region && m.roleARN == q.roleARN && m.session == q.session
  {
    InterleavingKeepsInvariant(requests, run, n);
    j :| 0 <= j < |requests| && Key(requests[j]) == Key(requests[i])
      && run[n].callers[i].manager == NewResourceManager(requests[j]);
  }

  lemma {:induction false} SeparateRequestsAreServed(requests: seq<Request>, run: seq<State>, n: nat)
    requires Separate(requests) && Interleaving(requests, run) && n < |run|
    ensures AllFit(run[n])
  {
    InterleavingKeepsInvariant(requests, run, n);
    var s := run[n];
    forall i | 0 <= i < |requests| && s.callers[i].Served?
      ensures Fits(s.callers[i].manager, s.callers[i].request)
    {
      var j :| 0 <= j < |requests| && Key(requests[j]) == Key(requests[i])
        && s.callers[i].manager == NewResourceManager(requests[j]);
      assert SameIdentity(requests[j], requests[i]);
    }
  }

  /** One caller after the other is served; the second gets the manager of the first. */
  lemma {:induction false} SharedKeyIsServedWrong(requests: seq<Request>, i: nat, j: nat) returns (run: seq<State>)
    requires i < |requests| && j < |requests| && Key(requests[i]) == Key(requests[j])
    requires !SameIdentity(requests[i], requests[j])
    ensures Interleaving(requests, run) && !AllFit(run[|run| - 1])
  {
    var p, q := requests[i], requests[j];
    var m := NewResourceManager(p);
    var s0 := Start(requests);
    var s1 := s0.(callers := s0.callers[i := Missed(p)]);
    var s2 := State(s1.cache[Key(p) := m], s1.callers[i := Served(p, m)]);
    var s3 := s2.(callers := s2.callers[j := Served(q, m)]);
    assert Lookup(s0, i, s1) && Insert(s1, i, s2) && Lookup(s2, j, s3);
    run := [s0, s1, s2, s3];
    assert NextAt(run, 0) && NextAt(run, 1) && NextAt(run, 2);
    assert s3.callers[j] == Served(q, m);
  }

  /** Every caller of every interleaving gets a manager of its own identity exactly when requests
      that share a key share an identity. */
  lemma {:induction false} EveryCallerServedIff(requests: seq<Request>)
    ensures Separate(requests) <==>
      forall run, n :: Interleaving(requests, run) && 0 <= n < |run| ==> AllFit(run[n])
  {
    if Separate(requests) {
      forall run, n | Interleaving(requests, run) && 0 <= n < |run| ensures AllFit(run[n]) {
        SeparateRequestsAreServed(requests, run, n);
      }
    } else {
      var i, j :| 0 <= i < |requests| && 0 <= j < |requests| && Key(requests[i]) == Key(requests[j])
        && !SameIdentity(requests[i], requests[j]);
      var run := SharedKeyIsServedWrong(requests, i, j);
      assert !AllFit(run[|run| - 1]);
    }
  }

  /** Which they do when no account and no region contains a slash. */
  lemma {:induction false} SlashFreeRequestsAreSeparate(requests: seq<Request>)
    requires forall i :: 0 <= i < |requests| ==> NoSlash(requests[i].account) && NoSlash(requests[i].region)
    ensures Separate(requests)
  {
    forall i, j | 0 <= i < |requests| && 0 <= j < |requests| && Key(requests[i]) == Key(requests[j])
      ensures SameIdentity(requests[i], requests[j])
    {
      KeyInjective(requests[i], requests[j]);
    }
  }
}
