/** What holds of every run of SyncIPAddresses, at every point of it, whatever calls fail. */
module EndpointRuns {
  import opened Wrappers
  import opened Orders
  import opened Runs
  import opened EndpointTypes
  import opened EndpointBackend
  import opened EndpointHook

  ghost function DesiredSubnets(desired: seq<IPAddressRequest>): set<string> {
    set r | r in desired && r.subnetID.Some? :: r.subnetID.value
  }

  /** `order` is an order in which a complete listing may show the attached addresses. */
  ghost predicate Lists(order: seq<IpId>, s: State) {
    IsOrder(order, s.Keys) && forall id :: id in order <==> id in s
  }

  ghost function ListedRequests(order: seq<IpId>, s: State): seq<IPAddressRequest>
    requires Lists(order, s)
  {
    RequestsOf(DescribeAll(order, s))
  }

  ghost function ListedResponses(order: seq<IpId>, s: State): seq<IPAddressResponse>
    requires Lists(order, s)
  {
    ResponsesOf(DescribeAll(order, s))
  }

  ghost function ToAdd(desired: seq<IPAddressRequest>, order: seq<IpId>, s: State): seq<IPAddressRequest>
    requires Lists(order, s)
  {
    Added(desired, ListedRequests(order, s), |desired|)
  }

  /** The IDs of the first `n` listed addresses that are to go. */
  ghost function RemovedOf(desired: seq<IPAddressRequest>, order: seq<IpId>, s: State, n: nat): seq<Option<IpId>>
    requires Lists(order, s) && n <= |order|
  {
    Removed(desired, ListedRequests(order, s), ListedResponses(order, s), n)
  }

  ghost function ToRemove(desired: seq<IPAddressRequest>, order: seq<IpId>, s: State): seq<Option<IpId>>
    requires Lists(order, s)
  {
    RemovedOf(desired, order, s, |order|)
  }

  /** The calls that a fresh listing of `s` in this order leads to. */
  ghost function FreshPlan(desired: seq<IPAddressRequest>, order: seq<IpId>, s: State): seq<Call>
    requires Lists(order, s)
  {
    Plan(desired, ListedRequests(order, s), ListedResponses(order, s))
  }

  // ----- the two lists of the plan -----

  lemma {:induction false} CoversListed(order: seq<IpId>, s: State, subnet: string)
    requires Lists(order, s)
    ensures Covers(ListedRequests(order, s), Some(subnet)) <==> subnet in Subnets(s)
  {
    var listed := ListedRequests(order, s);
    if Covers(listed, Some(subnet)) {
      var i :| 0 <= i < |listed| && listed[i].subnetID == Some(subnet);
      assert order[i] in s;
    }
    if subnet in Subnets(s) {
      var id :| id in s && s[id].subnet == subnet;
      var i :| 0 <= i < |order| && order[i] == id;
      assert listed[i] in listed && listed[i].subnetID == Some(subnet);
    }
  }

  lemma {:induction false} CoversDesired(desired: seq<IPAddressRequest>, subnet: string)
    ensures Covers(desired, Some(subnet)) <==> subnet in DesiredSubnets(desired)
  {
  }

  lemma {:induction false} ToAddMembers(desired: seq<IPAddressRequest>, order: seq<IpId>, s: State)
    requires SubnetsGiven(desired) && Lists(order, s)
    ensures forall r :: r in ToAdd(desired, order, s) <==> r in desired && r.subnetID.value !in Subnets(s)
    ensures SubnetsGiven(ToAdd(desired, order, s))
  {
    AddedMembers(desired, ListedRequests(order, s), |desired|);
    assert desired[..|desired|] == desired;
    forall r | r in desired
      ensures Covers(ListedRequests(order, s), r.subnetID) <==> r.subnetID.value in Subnets(s)
    {
      CoversListed(order, s, r.subnetID.value);
    }
  }

  /** One list is indexed by positions of the other, and the ID found is that of the address. */
  lemma {:induction false} RemovedOneMore(desired: seq<IPAddressRequest>, order: seq<IpId>, s: State, n: nat)
    requires Lists(order, s) && n < |order|
    ensures RemovedOf(desired, order, s, n + 1)
         == RemovedOf(desired, order, s, n)
             + if s[order[n]].subnet in DesiredSubnets(desired) then [] else [Some(order[n])]
  {
    CoversDesired(desired, s[order[n]].subnet);
    assert ListedRequests(order, s)[n].subnetID == Some(s[order[n]].subnet);
    assert ListedResponses(order, s)[n].ipID == Some(order[n]);
  }

  lemma {:induction false} RemovedMember(desired: seq<IPAddressRequest>, order: seq<IpId>, s: State, n: nat,
                                         o: Option<IpId>)
    requires Lists(order, s) && n <= |order|
    ensures o in RemovedOf(desired, order, s, n) <==>
      o.Some? && o.value in order[..n] && s[o.value].subnet !in DesiredSubnets(desired)
  {
    if n > 0 {
      RemovedMember(desired, order, s, n - 1, o);
      RemovedOneMore(desired, order, s, n - 1);
      assert order[..n] == order[..n - 1] + [order[n - 1]];
    }
  }

  lemma {:induction false} NotRemovedYet(desired: seq<IPAddressRequest>, order: seq<IpId>, s: State, n: nat)
    requires Lists(order, s) && n < |order|
    ensures Some(order[n]) !in RemovedOf(desired, order, s, n)
  {
    RemovedMember(desired, order, s, n, Some(order[n]));
    assert order[n] !in order[..n];
  }

  lemma {:induction false} RemovedOnce(desired: seq<IPAddressRequest>, order: seq<IpId>, s: State, n: nat)
    requires Lists(order, s) && n <= |order|
    ensures NoDup(RemovedOf(desired, order, s, n))
  {
    if n > 0 {
      RemovedOnce(desired, order, s, n - 1);
      NotRemovedYet(desired, order, s, n - 1);
      var before, next := RemovedOf(desired, order, s, n - 1), Some(order[n - 1]);
      NoDupSnoc(before, next);
      RemovedOneMore(desired, order, s, n - 1);
      assert before + [] == before;
    }
  }

  lemma {:induction false} ToRemoveMembers(desired: seq<IPAddressRequest>, order: seq<IpId>, s: State)
    requires Lists(order, s)
    ensures NoDup(ToRemove(desired, order, s))
    ensures forall o :: o in ToRemove(desired, order, s) <==>
      o.Some? && o.value in s && s[o.value].subnet !in DesiredSubnets(desired)
  {
    RemovedOnce(desired, order, s, |order|);
    assert order[..|order|] == order;
    forall o: Option<IpId>
      ensures o in ToRemove(desired, order, s) <==>
        o.Some? && o.value in s && s[o.value].subnet !in DesiredSubnets(desired)
    {
      RemovedMember(desired, order, s, |order|, o);
    }
  }

  // ----- the invariant of a run -----

  /** Nothing goes while addresses are added, and nothing in a desired subnet ever goes. */
  ghost predicate KeepsOld(wanted: set<string>, added: seq<IPAddressRequest>, s0: State, t: State, k: nat) {
    forall id :: id in s0 && (k <= |added| || s0[id].subnet in wanted) ==> id in t && t[id] == s0[id]
  }

  ghost predicate KeepsNew(wanted: set<string>, s0: State, t: State) {
    forall id :: id in t ==> t[id].subnet in wanted || (id in s0 && t[id] == s0[id])
  }

  ghost predicate HasAdded(added: seq<IPAddressRequest>, t: State, k: nat) {
    forall j :: 0 <= j < k && j < |added| ==> added[j].subnetID.Some? && added[j].subnetID.value in Subnets(t)
  }

  /** What holds after `k` successful calls of the plan made for `s0`. */
  ghost predicate Keeps(wanted: set<string>, added: seq<IPAddressRequest>, removed: seq<Option<IpId>>,
                        s0: State, t: State, k: nat) {
    && KeepsOld(wanted, added, s0, t, k)
    && KeepsNew(wanted, s0, t)
    && HasAdded(added, t, k)
    && (forall j :: 0 <= j < |removed| && |added| + j >= k ==>
          removed[j].Some? && removed[j].value in t && t[removed[j].value].subnet !in wanted)
  }

  lemma {:induction false} AttachKeeps(wanted: set<string>, added: seq<IPAddressRequest>,
                                       removed: seq<Option<IpId>>, s0: State, t: State, k: nat, t': State)
    requires Keeps(wanted, added, removed, s0, t, k) && k < |added|
    requires Step(t, Attach(added[k]), t')
    requires added[k].subnetID.Some? && added[k].subnetID.value in wanted
    ensures Keeps(wanted, added, removed, s0, t', k + 1)
  {
    var id, a :| Attaches(t, added[k], id, a, t');
    assert t'[id].subnet == added[k].subnetID.value;
    assert forall x :: x in t ==> x in t' && t'[x] == t[x];
    assert Subnets(t) <= Subnets(t') && added[k].subnetID.value in Subnets(t');
  }

  lemma {:induction false} DetachKeeps(wanted: set<string>, added: seq<IPAddressRequest>,
                                       removed: seq<Option<IpId>>, s0: State, t: State, k: nat, t': State)
    requires Keeps(wanted, added, removed, s0, t, k) && |added| <= k < |added| + |removed|
    requires Step(t, Detach(removed[k - |added|]), t')
    requires NoDup(removed)
    requires forall r :: r in added ==> r.subnetID.Some? && r.subnetID.value in wanted
    ensures Keeps(wanted, added, removed, s0, t', k + 1)
  {
    var gone := removed[k - |added|].value;
    assert t[gone].subnet !in wanted;
    forall j | 0 <= j < |added| ensures added[j].subnetID.value in Subnets(t') {
      var id :| id in t && t[id].subnet == added[j].subnetID.value;
      assert added[j] in added;
      assert id in t';
    }
  }

  /** What the invariant needs to know about a plan. */
  ghost predicate GoodPlan(wanted: set<string>, added: seq<IPAddressRequest>, removed: seq<Option<IpId>>, s0: State) {
    && (forall r :: r in added ==> r.subnetID.Some? && r.subnetID.value in wanted)
    && NoDup(removed)
    && (forall j :: 0 <= j < |removed| ==>
          removed[j].Some? && removed[j].value in s0 && s0[removed[j].value].subnet !in wanted)
  }

  lemma {:induction false} FreshPlanGood(desired: seq<IPAddressRequest>, order: seq<IpId>, s0: State)
    requires SubnetsGiven(desired) && Lists(order, s0)
    ensures GoodPlan(DesiredSubnets(desired), ToAdd(desired, order, s0), ToRemove(desired, order, s0), s0)
  {
    ToAddMembers(desired, order, s0);
    ToRemoveMembers(desired, order, s0);
    var removed := ToRemove(desired, order, s0);
    assert forall j :: 0 <= j < |removed| ==> removed[j] in removed;
  }

  lemma {:induction false} CallKeeps(wanted: set<string>, added: seq<IPAddressRequest>, removed: seq<Option<IpId>>,
                                     s0: State, t: State, k: nat, e: Event<State, Call>)
    requires GoodPlan(wanted, added, removed, s0) && Keeps(wanted, added, removed, s0, t, k)
    requires k < |added| + |removed| && e.call == PlanOf(added, removed)[k]
    requires e.ok && Takes(Step, t, e)
    ensures Keeps(wanted, added, removed, s0, e.after, k + 1)
  {
    if k < |added| {
      assert added[k] in added;
      AttachKeeps(wanted, added, removed, s0, t, k, e.after);
    } else {
      DetachKeeps(wanted, added, removed, s0, t, k, e.after);
    }
  }

  lemma {:induction false} PlanKeeps(wanted: set<string>, added: seq<IPAddressRequest>, removed: seq<Option<IpId>>,
                                     s0: State, log: Log, k: nat)
    requires GoodPlan(wanted, added, removed, s0)
    requires IsRun(Step, PlanOf(added, removed), s0, log)
    requires k <= |log| && forall j :: 0 <= j < k ==> log[j].ok
    ensures Keeps(wanted, added, removed, s0, StateAt(s0, log, k), k)
  {
    if k > 0 {
      PlanKeeps(wanted, added, removed, s0, log, k - 1);
      assert TakesAt(Step, s0, log, k - 1);
      CallKeeps(wanted, added, removed, s0, StateAt(s0, log, k - 1), k - 1, log[k - 1]);
    }
  }

  lemma {:induction false} RunKeeps(desired: seq<IPAddressRequest>, order: seq<IpId>, s0: State, log: Log, k: nat)
    requires SubnetsGiven(desired) && Lists(order, s0)
    requires IsRun(Step, FreshPlan(desired, order, s0), s0, log)
    requires k <= |log| && forall j :: 0 <= j < k ==> log[j].ok
    ensures Keeps(DesiredSubnets(desired), ToAdd(desired, order, s0), ToRemove(desired, order, s0),
                  s0, StateAt(s0, log, k), k)
  {
    FreshPlanGood(desired, order, s0);
    PlanKeeps(DesiredSubnets(desired), ToAdd(desired, order, s0), ToRemove(desired, order, s0), s0, log, k);
  }

  /** A failing call leaves the state as it was, so every point of a run is one with only
      successful calls before it. */
  lemma {:induction false} PointKeeps(desired: seq<IPAddressRequest>, order: seq<IpId>, s0: State, log: Log, k: nat)
    returns (m: nat)
    requires SubnetsGiven(desired) && Lists(order, s0)
    requires IsRun(Step, FreshPlan(desired, order, s0), s0, log) && k <= |log|
    ensures m <= k && StateAt(s0, log, k) == StateAt(s0, log, m) && (m < k ==> !log[m].ok && k == |log|)
    ensures forall j :: 0 <= j < m ==> log[j].ok
    ensures Keeps(DesiredSubnets(desired), ToAdd(desired, order, s0), ToRemove(desired, order, s0),
                  s0, StateAt(s0, log, m), m)
  {
    m := k;
    if k > 0 && !log[k - 1].ok {
      assert TakesAt(Step, s0, log, k - 1);
      m := k - 1;
    }
    RunKeeps(desired, order, s0, log, m);
  }

  // ----- the address floor -----

  lemma {:induction false} SubnetsSize(s: State)
    ensures |Subnets(s)| <= |s|
  {
    if s != map[] {
      var id :| id in s;
      var rest := s - {id};
      SubnetsSize(rest);
      forall x | x in Subnets(s) ensures x in Subnets(rest) + {s[id].subnet} {
        var other :| other in s && s[other].subnet == x;
        assert other != id ==> other in rest;
      }
      SubsetSize(Subnets(s), Subnets(rest) + {s[id].subnet});
      assert s.Keys == rest.Keys + {id};
    }
  }

  ghost function Min(a: int, b: int): int {
    if a < b then a else b
  }

  lemma {:induction false} WantedCovered(desired: seq<IPAddressRequest>, order: seq<IpId>, s0: State, t: State,
                                         k: nat)
    requires SubnetsGiven(desired) && Lists(order, s0)
    requires KeepsOld(DesiredSubnets(desired), ToAdd(desired, order, s0), s0, t, k)
    requires HasAdded(ToAdd(desired, order, s0), t, k) && k >= |ToAdd(desired, order, s0)|
    ensures DesiredSubnets(desired) <= Subnets(t)
  {
    ToAddMembers(desired, order, s0);
    var added := ToAdd(desired, order, s0);
    forall r | r in desired ensures r.subnetID.value in Subnets(t) {
      if r in added {
        var j :| 0 <= j < |added| && added[j] == r;
      } else {
        var id :| id in s0 && s0[id].subnet == r.subnetID.value;
        assert r.subnetID.value in DesiredSubnets(desired);
        assert id in t && t[id] == s0[id];
      }
    }
  }

  /** At every point of every run the endpoint has at least as many addresses as it started with,
      or at least one for each desired subnet. */
  lemma {:induction false} NeverBelowFloor(desired: seq<IPAddressRequest>, order: seq<IpId>, s0: State, log: Log,
                                           k: nat)
    requires SubnetsGiven(desired) && Lists(order, s0)
    requires IsRun(Step, FreshPlan(desired, order, s0), s0, log) && k <= |log|
    ensures |StateAt(s0, log, k)| >= Min(|s0|, |DesiredSubnets(desired)|)
  {
    var m := PointKeeps(desired, order, s0, log, k);
    var t := StateAt(s0, log, m);
    if m <= |ToAdd(desired, order, s0)| {
      SubsetSize(s0.Keys, t.Keys);
      assert |s0.Keys| == |s0| && |t.Keys| == |t|;
    } else {
      WantedCovered(desired, order, s0, t, m);
      SubsetSize(DesiredSubnets(desired), Subnets(t));
      SubnetsSize(t);
    }
  }

  // ----- single calls of a run -----

  /** A successful addition goes to a desired subnet, a successful removal leaves an undesired one. */
  ghost predicate Allowed(desired: seq<IPAddressRequest>, t: State, e: Event<State, Call>) {
    && Takes(Step, t, e)
    && match e.call
       case Attach(r) => r in desired
       case Detach(id) => e.ok ==> t[id.value].subnet !in DesiredSubnets(desired)
  }

  /** The call after `k` successful ones is an addition to a desired subnet, or the removal of
      an address that is attached in a subnet that is not desired. */
  lemma {:induction false} NextCall(wanted: set<string>, added: seq<IPAddressRequest>, removed: seq<Option<IpId>>,
                                    s0: State, t: State, k: nat)
    requires GoodPlan(wanted, added, removed, s0) && Keeps(wanted, added, removed, s0, t, k)
    requires k < |added| + |removed|
    ensures match PlanOf(added, removed)[k]
            case Attach(r) => r in added && r.subnetID.Some?
            case Detach(id) => id.Some? && id.value in t && t[id.value].subnet !in wanted
  {
    if k < |added| {
      assert added[k] in added;
    }
  }

  ghost predicate AllowedAt(desired: seq<IPAddressRequest>, s0: State, log: Log, k: nat)
    requires k < |log|
  {
    Allowed(desired, StateAt(s0, log, k), log[k])
  }

  lemma {:induction false} EveryCallAllowed(desired: seq<IPAddressRequest>, order: seq<IpId>, s0: State, log: Log,
                                            k: nat)
    requires SubnetsGiven(desired) && Lists(order, s0)
    requires IsRun(Step, FreshPlan(desired, order, s0), s0, log) && k < |log|
    ensures AllowedAt(desired, s0, log, k)
  {
    var added, removed := ToAdd(desired, order, s0), ToRemove(desired, order, s0);
    FreshPlanGood(desired, order, s0);
    PlanKeeps(DesiredSubnets(desired), added, removed, s0, log, k);
    NextCall(DesiredSubnets(desired), added, removed, s0, StateAt(s0, log, k), k);
    assert TakesAt(Step, s0, log, k);
    ToAddMembers(desired, order, s0);
  }

  /** A sequence of calls each of which is allowed; what runs of many plans in a row look like. */
  ghost predicate AllAllowed(desired: seq<IPAddressRequest>, s0: State, log: Log) {
    forall k :: 0 <= k < |log| ==> AllowedAt(desired, s0, log, k)
  }

  lemma {:induction false} RunAllowed(desired: seq<IPAddressRequest>, order: seq<IpId>, s0: State, log: Log)
    requires SubnetsGiven(desired) && Lists(order, s0)
    requires IsRun(Step, FreshPlan(desired, order, s0), s0, log)
    ensures AllAllowed(desired, s0, log)
  {
    forall k | 0 <= k < |log| ensures AllowedAt(desired, s0, log, k) {
      EveryCallAllowed(desired, order, s0, log, k);
    }
  }

  /** An address in a desired subnet stays attached, unchanged, so no covered desired subnet is
      ever uncovered. */
  lemma {:induction false} NeverUncovers(desired: seq<IPAddressRequest>, s0: State, log: Log, j: nat, k: nat)
    requires AllAllowed(desired, s0, log) && j <= k <= |log|
    ensures forall id :: id in StateAt(s0, log, j) && StateAt(s0, log, j)[id].subnet in DesiredSubnets(desired) ==>
      id in StateAt(s0, log, k) && StateAt(s0, log, k)[id] == StateAt(s0, log, j)[id]
    ensures Subnets(StateAt(s0, log, j)) * DesiredSubnets(desired) <= Subnets(StateAt(s0, log, k))
  {
    if j < k {
      NeverUncovers(desired, s0, log, j, k - 1);
      assert AllowedAt(desired, s0, log, k - 1);
    }
  }

  // ----- the work left -----

  /** The positions of desired addresses whose subnet is not attached. */
  ghost function Missing(desired: seq<IPAddressRequest>, s: State): set<int>
    requires SubnetsGiven(desired)
  {
    set i | 0 <= i < |desired| && desired[i].subnetID.value !in Subnets(s)
  }

  /** The attached addresses whose subnet is not desired. */
  ghost function Extra(desired: seq<IPAddressRequest>, s: State): set<IpId> {
    set id | id in s && s[id].subnet !in DesiredSubnets(desired)
  }

  ghost function Work(desired: seq<IPAddressRequest>, s: State): nat
    requires SubnetsGiven(desired)
  {
    |Missing(desired, s)| + |Extra(desired, s)|
  }

  ghost function MissingBelow(desired: seq<IPAddressRequest>, s: State, n: nat): set<int>
    requires SubnetsGiven(desired)
  {
    set i | i in Missing(desired, s) && i < n
  }

  lemma {:induction false} MissingBelowOneMore(desired: seq<IPAddressRequest>, s: State, n: nat)
    requires SubnetsGiven(desired) && n < |desired|
    ensures |MissingBelow(desired, s, n + 1)|
         == |MissingBelow(desired, s, n)| + if desired[n].subnetID.value in Subnets(s) then 0 else 1
  {
    assert MissingBelow(desired, s, n + 1)
        == MissingBelow(desired, s, n) + if desired[n].subnetID.value in Subnets(s) then {} else {n};
  }

  lemma {:induction false} AddedSize(desired: seq<IPAddressRequest>, order: seq<IpId>, s: State, n: nat)
    requires SubnetsGiven(desired) && Lists(order, s) && n <= |desired|
    ensures |Added(desired, ListedRequests(order, s), n)| == |MissingBelow(desired, s, n)|
  {
    if n > 0 {
      AddedSize(desired, order, s, n - 1);
      CoversListed(order, s, desired[n - 1].subnetID.value);
      MissingBelowOneMore(desired, s, n - 1);
    }
  }

  lemma {:induction false} ToRemoveSize(desired: seq<IPAddressRequest>, order: seq<IpId>, s: State)
    requires Lists(order, s)
    ensures |ToRemove(desired, order, s)| == |Extra(desired, s)|
  {
    var removed := ToRemove(desired, order, s);
    ToRemoveMembers(desired, order, s);
    var ids := seq(|removed|, i requires 0 <= i < |removed| => (assert removed[i] in removed; removed[i].value));
    forall id | id in Extra(desired, s) ensures id in ids {
      assert Some(id) in removed;
      var i :| 0 <= i < |removed| && removed[i] == Some(id);
      assert ids[i] == id;
    }
    forall id | id in ids ensures id in Extra(desired, s) {
      var i :| 0 <= i < |ids| && ids[i] == id;
      assert removed[i] in removed;
    }
    assert forall i :: 0 <= i < |removed| ==> removed[i] == Some(ids[i]);
    OrderLength(ids, Extra(desired, s));
  }

  /** The work left is the number of calls that a fresh listing and comparison would plan,
      in whatever order the listing comes. */
  lemma {:induction false} WorkIsPlanLength(desired: seq<IPAddressRequest>, order: seq<IpId>, s: State)
    requires SubnetsGiven(desired) && Lists(order, s)
    ensures |FreshPlan(desired, order, s)| == Work(desired, s)
  {
    AddedSize(desired, order, s, |desired|);
    assert Missing(desired, s) == MissingBelow(desired, s, |desired|);
    ToRemoveSize(desired, order, s);
  }

  /** There is nothing left to do exactly when the attached subnets are the desired ones. */
  lemma {:induction false} NoWorkIffEqual(desired: seq<IPAddressRequest>, s: State)
    requires SubnetsGiven(desired)
    ensures Work(desired, s) == 0 <==> Subnets(s) == DesiredSubnets(desired)
  {
    if Work(desired, s) == 0 {
      forall x | x in DesiredSubnets(desired) ensures x in Subnets(s) {
        var i :| 0 <= i < |desired| && desired[i].subnetID.value == x;
        assert i !in Missing(desired, s);
      }
      forall x | x in Subnets(s) ensures x in DesiredSubnets(desired) {
        var id :| id in s && s[id].subnet == x;
        assert id !in Extra(desired, s);
      }
    }
    if Subnets(s) == DesiredSubnets(desired) {
      forall i | 0 <= i < |desired| ensures i !in Missing(desired, s) {
        assert desired[i] in desired;
      }
      assert Missing(desired, s) == {};
      assert Extra(desired, s) == {};
    }
  }

  /** Every successful call brings the work down: a removal by exactly one, an addition by the
      number of desired addresses in its subnet, unless that subnet was attached already. */
  lemma {:induction false} CallReducesWork(desired: seq<IPAddressRequest>, t: State, e: Event<State, Call>)
    requires SubnetsGiven(desired) && Allowed(desired, t, e)
    ensures !e.ok ==> Work(desired, e.after) == Work(desired, t)
    ensures e.ok && e.call.Detach? ==> Work(desired, e.after) == Work(desired, t) - 1
    ensures e.ok && e.call.Attach? ==>
      Work(desired, e.after) == Work(desired, t)
        - |set i | i in Missing(desired, t) && desired[i].subnetID == e.call.request.subnetID|
  {
    if e.ok {
      match e.call
      case Attach(r) =>
        var id, a :| Attaches(t, r, id, a, e.after);
        var done := set i | i in Missing(desired, t) && desired[i].subnetID == r.subnetID;
        forall x | x in Subnets(e.after) ensures x in Subnets(t) || x == a.subnet {
          var y :| y in e.after && e.after[y].subnet == x;
        }
        assert forall y :: y in t ==> y in e.after && e.after[y] == t[y];
        assert e.after[id].subnet == a.subnet;
        assert Missing(desired, e.after) == Missing(desired, t) - done;
        assert Extra(desired, e.after) == Extra(desired, t);
      case Detach(oid) =>
        var id := oid.value;
        assert Extra(desired, e.after) == Extra(desired, t) - {id};
        forall i | 0 <= i < |desired|
          ensures desired[i].subnetID.value in Subnets(t) <==> desired[i].subnetID.value in Subnets(e.after)
        {
          if desired[i].subnetID.value in Subnets(t) {
            var y :| y in t && t[y].subnet == desired[i].subnetID.value;
            assert desired[i] in desired && y != id && y in e.after;
          }
        }
        assert Missing(desired, e.after) == Missing(desired, t);
    }
  }

  lemma {:induction false} WorkNeverGrows(desired: seq<IPAddressRequest>, s0: State, log: Log, j: nat, k: nat)
    requires SubnetsGiven(desired) && AllAllowed(desired, s0, log) && j <= k <= |log|
    ensures Work(desired, StateAt(s0, log, k)) <= Work(desired, StateAt(s0, log, j))
  {
    if j < k {
      WorkNeverGrows(desired, s0, log, j, k - 1);
      assert AllowedAt(desired, s0, log, k - 1);
      CallReducesWork(desired, StateAt(s0, log, k - 1), log[k - 1]);
    }
  }

  // ----- the work done -----

  /** Every front part of the additions is what some front part of the desired addresses adds. */
  lemma {:induction false} AddedCut(desired: seq<IPAddressRequest>, latest: seq<IPAddressRequest>, n: nat, k: nat)
    returns (m: nat)
    requires n <= |desired| && k <= |Added(desired, latest, n)|
    ensures m <= n && Added(desired, latest, m) == Added(desired, latest, n)[..k]
  {
    if k == |Added(desired, latest, n)| {
      m := n;
    } else {
      m := AddedCut(desired, latest, n - 1, k);
    }
  }

  /** After `k` additions the subnets attached before are still attached, and so are those of the
      first `m` desired addresses, whose additions the `k` are. */
  lemma {:induction false} CoveredAfter(desired: seq<IPAddressRequest>, order: seq<IpId>, s0: State, t: State,
                                        k: nat, m: nat, i: nat)
    requires SubnetsGiven(desired) && Lists(order, s0) && k <= |ToAdd(desired, order, s0)|
    requires KeepsOld(DesiredSubnets(desired), ToAdd(desired, order, s0), s0, t, k)
    requires HasAdded(ToAdd(desired, order, s0), t, k)
    requires m <= |desired| && Added(desired, ListedRequests(order, s0), m) == ToAdd(desired, order, s0)[..k]
    requires i < |desired| && (desired[i].subnetID.value in Subnets(s0) || i < m)
    ensures desired[i].subnetID.value in Subnets(t)
  {
    var added, subnet := ToAdd(desired, order, s0), desired[i].subnetID.value;
    if subnet in Subnets(s0) {
      var id :| id in s0 && s0[id].subnet == subnet;
      assert t[id].subnet == subnet;
    } else {
      CoversListed(order, s0, subnet);
      AddedMembers(desired, ListedRequests(order, s0), m);
      assert desired[..m][i] == desired[i];
      var j :| 0 <= j < k && added[..k][j] == desired[i];
      assert added[j] == desired[i];
    }
  }

  lemma {:induction false} SetShrinks<T>(before: set<T>, done: set<T>, now: set<T>)
    requires done <= before && now <= before - done
    ensures |now| + |done| <= |before|
  {
    SubsetSize(now, before - done);
  }

  lemma {:induction false} MissingShrinks(desired: seq<IPAddressRequest>, order: seq<IpId>, s0: State, t: State,
                                          k: nat)
    requires SubnetsGiven(desired) && Lists(order, s0) && k <= |ToAdd(desired, order, s0)|
    requires KeepsOld(DesiredSubnets(desired), ToAdd(desired, order, s0), s0, t, k)
    requires HasAdded(ToAdd(desired, order, s0), t, k)
    ensures |Missing(desired, t)| + k <= |Missing(desired, s0)|
  {
    var listed := ListedRequests(order, s0);
    var m := AddedCut(desired, listed, |desired|, k);
    assert |Added(desired, listed, m)| == k;
    AddedSize(desired, order, s0, m);
    forall i | 0 <= i < |desired| && (i !in Missing(desired, s0) || i < m) ensures i !in Missing(desired, t) {
      CoveredAfter(desired, order, s0, t, k, m, i);
    }
    SetShrinks(Missing(desired, s0), MissingBelow(desired, s0, m), Missing(desired, t));
  }

  lemma {:induction false} ExtraShrinks(desired: seq<IPAddressRequest>, s0: State, t: State)
    requires KeepsNew(DesiredSubnets(desired), s0, t)
    ensures |Extra(desired, t)| <= |Extra(desired, s0)|
  {
    SubsetSize(Extra(desired, t), Extra(desired, s0));
  }

  lemma {:induction false} AdditionsDone(desired: seq<IPAddressRequest>, order: seq<IpId>, s0: State, log: Log,
                                         k: nat)
    requires SubnetsGiven(desired) && Lists(order, s0)
    requires IsRun(Step, FreshPlan(desired, order, s0), s0, log)
    requires k <= |log| && k <= |ToAdd(desired, order, s0)| && forall j :: 0 <= j < k ==> log[j].ok
    ensures Work(desired, StateAt(s0, log, k)) + k <= Work(desired, s0)
  {
    RunKeeps(desired, order, s0, log, k);
    MissingShrinks(desired, order, s0, StateAt(s0, log, k), k);
    ExtraShrinks(desired, s0, StateAt(s0, log, k));
  }

  ghost predicate LowersAt(desired: seq<IPAddressRequest>, s0: State, log: Log, k: nat)
    requires SubnetsGiven(desired) && k < |log|
  {
    Work(desired, StateAt(s0, log, k + 1)) == Work(desired, StateAt(s0, log, k)) - 1
  }

  lemma {:induction false} RemovalDone(desired: seq<IPAddressRequest>, order: seq<IpId>, s0: State, log: Log, k: nat)
    requires SubnetsGiven(desired) && Lists(order, s0)
    requires IsRun(Step, FreshPlan(desired, order, s0), s0, log)
    requires |ToAdd(desired, order, s0)| <= k < |log| && log[k].ok
    ensures LowersAt(desired, s0, log, k)
  {
    assert FreshPlan(desired, order, s0)[k].Detach?;
    EveryCallAllowed(desired, order, s0, log, k);
    CallReducesWork(desired, StateAt(s0, log, k), log[k]);
  }

  lemma {:induction false} LowersAlong(desired: seq<IPAddressRequest>, s0: State, log: Log, n: nat, k: nat)
    requires SubnetsGiven(desired) && n <= k <= |log|
    requires forall j :: n <= j < k ==> LowersAt(desired, s0, log, j)
    ensures Work(desired, StateAt(s0, log, k)) + k == Work(desired, StateAt(s0, log, n)) + n
  {
    if n < k {
      LowersAlong(desired, s0, log, n, k - 1);
      assert LowersAt(desired, s0, log, k - 1);
    }
  }

  /** The first `k` successful calls of a plan lower the work by `k` at least, although an addition
      alone lowers it by nothing when the subnet was attached by the one before it. */
  lemma {:induction false} CallsDone(desired: seq<IPAddressRequest>, order: seq<IpId>, s0: State, log: Log, k: nat)
    requires SubnetsGiven(desired) && Lists(order, s0)
    requires IsRun(Step, FreshPlan(desired, order, s0), s0, log)
    requires k <= |log| && forall j :: 0 <= j < k ==> log[j].ok
    ensures Work(desired, StateAt(s0, log, k)) + k <= Work(desired, s0)
  {
    var n := if k <= |ToAdd(desired, order, s0)| then k else |ToAdd(desired, order, s0)|;
    AdditionsDone(desired, order, s0, log, n);
    forall j | n <= j < k ensures LowersAt(desired, s0, log, j) {
      RemovalDone(desired, order, s0, log, j);
    }
    LowersAlong(desired, s0, log, n, k);
  }

  /** A run lowers the work by the number of its successful calls at least, wherever it stops. */
  lemma {:induction false} RunLedger(desired: seq<IPAddressRequest>, order: seq<IpId>, s0: State, log: Log)
    requires SubnetsGiven(desired) && Lists(order, s0)
    requires IsRun(Step, FreshPlan(desired, order, s0), s0, log)
    ensures Work(desired, StateAt(s0, log, |log|)) + Successes(log) <= Work(desired, s0)
  {
    SuccessesStop(log);
    if AllOk(log) {
      CallsDone(desired, order, s0, log, |log|);
    } else {
      CallsDone(desired, order, s0, log, |log| - 1);
      assert TakesAt(Step, s0, log, |log| - 1);
    }
  }

  // ----- complete runs -----

  lemma {:induction false} StaysGone(desired: seq<IPAddressRequest>, order: seq<IpId>, s0: State,
                                     log: Log, id: IpId, j: nat, k: nat)
    requires Lists(order, s0) && IsRun(Step, FreshPlan(desired, order, s0), s0, log)
    requires |ToAdd(desired, order, s0)| <= j <= k <= |log|
    requires id !in StateAt(s0, log, j)
    ensures id !in StateAt(s0, log, k)
  {
    if j < k {
      StaysGone(desired, order, s0, log, id, j, k - 1);
      assert TakesAt(Step, s0, log, k - 1);
      var added := ToAdd(desired, order, s0);
      assert FreshPlan(desired, order, s0)[k - 1].Detach?;
    }
  }

  /** Once the whole plan has been carried out, each address it removes is gone. */
  lemma {:induction false} RemovedGone(desired: seq<IPAddressRequest>, order: seq<IpId>, s0: State, log: Log,
                                       id: IpId)
    requires SubnetsGiven(desired) && Lists(order, s0)
    requires IsRun(Step, FreshPlan(desired, order, s0), s0, log) && Complete(FreshPlan(desired, order, s0), log)
    requires Some(id) in ToRemove(desired, order, s0)
    ensures id !in StateAt(s0, log, |log|)
  {
    var added, removed := ToAdd(desired, order, s0), ToRemove(desired, order, s0);
    var i :| 0 <= i < |removed| && removed[i] == Some(id);
    assert TakesAt(Step, s0, log, |added| + i);
    StaysGone(desired, order, s0, log, id, |added| + i + 1, |log|);
  }

  /** A run without failures ends with exactly the desired subnets attached. */
  lemma {:induction false} CompleteRunConverges(desired: seq<IPAddressRequest>, order: seq<IpId>, s0: State, log: Log)
    requires SubnetsGiven(desired) && Lists(order, s0)
    requires IsRun(Step, FreshPlan(desired, order, s0), s0, log) && Complete(FreshPlan(desired, order, s0), log)
    ensures Subnets(StateAt(s0, log, |log|)) == DesiredSubnets(desired)
  {
    var t := StateAt(s0, log, |log|);
    RunKeeps(desired, order, s0, log, |log|);
    WantedCovered(desired, order, s0, t, |log|);
    ToRemoveMembers(desired, order, s0);
    forall id | id in t ensures t[id].subnet in DesiredSubnets(desired) {
      if t[id].subnet !in DesiredSubnets(desired) {
        assert Some(id) in ToRemove(desired, order, s0);
        RemovedGone(desired, order, s0, log, id);
      }
    }
  }

  /** Nothing but the backend's own failures stops a run: the next call could always succeed. */
  lemma {:induction false} NextCallPossible(desired: seq<IPAddressRequest>, order: seq<IpId>, s0: State, log: Log,
                                            k: nat)
    requires SubnetsGiven(desired) && Lists(order, s0)
    requires IsRun(Step, FreshPlan(desired, order, s0), s0, log)
    requires k < |log| && forall j :: 0 <= j < k ==> log[j].ok
    ensures log[k].call.Attach? ==> log[k].call.request.subnetID.Some?
    ensures log[k].call.Detach? ==> log[k].call.id.Some? && log[k].call.id.value in StateAt(s0, log, k)
  {
    var added, removed := ToAdd(desired, order, s0), ToRemove(desired, order, s0);
    FreshPlanGood(desired, order, s0);
    PlanKeeps(DesiredSubnets(desired), added, removed, s0, log, k);
    NextCall(DesiredSubnets(desired), added, removed, s0, StateAt(s0, log, k), k);
    assert TakesAt(Step, s0, log, k);
  }

  // ----- the recorded count -----

  ghost function Succeeded(log: Log, attach: bool): nat {
    if log == [] then 0 else
      Succeeded(log[..|log| - 1], attach)
      + if log[|log| - 1].ok && log[|log| - 1].call.Attach? == attach then 1 else 0
  }

  lemma {:induction false} SizeAt(plan: seq<Call>, s0: State, log: Log, k: nat)
    requires k <= |log| && IsRun(Step, plan, s0, log)
    ensures |StateAt(s0, log, k)| == |s0| + Succeeded(log[..k], true) - Succeeded(log[..k], false)
  {
    if k > 0 {
      SizeAt(plan, s0, log, k - 1);
      assert log[..k][..k - 1] == log[..k - 1];
      var t, e := StateAt(s0, log, k - 1), log[k - 1];
      assert TakesAt(Step, s0, log, k - 1);
      if e.ok {
        match e.call
        case Attach(r) =>
          var id, a :| Attaches(t, r, id, a, e.after);
          assert e.after.Keys == t.Keys + {id};
        case Detach(id) =>
          assert e.after.Keys == t.Keys - {id.value};
      }
    }
  }

  /** If the recorded address count was right before a run, it is right after it, also when the
      run fails midway: the start plus the successful additions minus the successful removals. */
  lemma {:induction false} RecordedCount(plan: seq<Call>, s0: State, log: Log)
    requires IsRun(Step, plan, s0, log)
    ensures CountAfter(Some(|s0|), log) == Some(|StateAt(s0, log, |log|)|)
    ensures CountAfter(Some(|s0|), log) == Some(|s0| + Succeeded(log, true) - Succeeded(log, false))
  {
    SizeAt(plan, s0, log, |log|);
    assert log[..|log|] == log;
    if |log| == 1 {
      assert TakesAt(Step, s0, log, 0);
    }
  }
}
