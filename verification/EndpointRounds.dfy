/** Rounds of reading the endpoint, comparing it with the desired resource and updating it
    (pkg/resource/resolver_endpoint/sdk.go and delta.go), and histories of such rounds. */
module EndpointRounds {
  import opened Wrappers
  import opened Orders
  import opened Runs
  import opened EndpointTypes
  import opened EndpointBackend
  import opened EndpointHook
  import opened EndpointRuns

  const IP_ADDRESSES := "Spec.IPAddresses"
  const TAGS := "Spec.Tags"

  /** The comparison, of which only the part about the addresses is spelled out: `others` are
      the paths that the remaining comparisons add. */
  method NewResourceDelta(a: Endpoint, b: Endpoint, others: set<string>) returns (delta: set<string>)
    requires IP_ADDRESSES !in others
    ensures delta - {IP_ADDRESSES} == others
    ensures IP_ADDRESSES in delta <==> a.ipAddresses != b.ipAddresses
  {
    delta := others;
    if |a.ipAddresses| != |b.ipAddresses| {
      delta := delta + {IP_ADDRESSES};
    } else if |a.ipAddresses| > 0 {
      if a.ipAddresses != b.ipAddresses {
        delta := delta + {IP_ADDRESSES};
      }
    }
  }

  lemma {:induction false} ListingLists(b: Backend)
    requires b.Valid()
    ensures Lists(b.Listing(), b.attached)
  {
    var order := b.Listing();
    assert forall id :: id in order <==> id in Elems(order);
  }

  /** Either both lists come from one complete listing, or both are those of the resource read for. */
  ghost predicate Read(requests: seq<IPAddressRequest>, responses: seq<IPAddressResponse>,
                       order: seq<IpId>, s: State,
                       latest: seq<IPAddressRequest>, status: seq<IPAddressResponse>)
    requires Lists(order, s)
  {
    || (latest == ListedRequests(order, s) && status == ListedResponses(order, s))
    || (latest == requests && status == responses)
  }

  /** Reads the endpoint into a copy of `r`. A listing that fails is ignored: the copy then keeps
      the addresses of `r`. */
  method SdkFind(b: Backend, r: Endpoint) returns (latest: Endpoint?)
    requires b.Valid()
    modifies b`calls
    ensures b.Valid() && b.Listing() == old(b.Listing())
    ensures latest != null ==> fresh(latest) && latest.ipAddressCount == Some(|b.attached|)
    ensures latest != null ==> latest.securityGroupRefs == r.securityGroupRefs
    ensures old(b.calls) < b.calls && (latest != null <==> !b.fails(old(b.calls)) && !b.fails(b.calls - 1))
    ensures latest != null ==> Lists(b.Listing(), b.attached) && Read(r.ipAddresses, r.ipStatuses,
              b.Listing(), b.attached, latest.ipAddresses, latest.ipStatuses)
    ensures old(b.calls) < b.calls
    ensures NoFailure(b.fails, old(b.calls), b.calls) ==>
      latest != null && Lists(b.Listing(), b.attached)
      && latest.ipAddresses == ListedRequests(b.Listing(), b.attached)
      && latest.ipStatuses == ListedResponses(b.Listing(), b.attached)
  {
    ListingLists(b);
    var ok, count := b.GetEndpoint();
    if !ok {
      return null;
    }
    var ko := r.DeepCopy();
    ko.ipAddressCount := Some(count);
    var _ := ListAttachedIPAddresses(b, ko);
    ok := b.TagCall();
    if !ok {
      return null;
    }
    return ko;
  }

  lemma {:induction false} NothingAdded(desired: seq<IPAddressRequest>, n: nat)
    requires n <= |desired|
    ensures Added(desired, desired, n) == []
  {
    if n > 0 {
      NothingAdded(desired, n - 1);
      assert desired[n - 1] in desired;
    }
  }

  lemma {:induction false} NothingRemoved(desired: seq<IPAddressRequest>, status: seq<IPAddressResponse>, n: nat)
    requires n <= |desired| && StatusReaches(desired, desired, status)
    ensures Removed(desired, desired, status, n) == []
  {
    if n > 0 {
      NothingRemoved(desired, status, n - 1);
      assert desired[n - 1] in desired;
    }
  }

  /** The status list is never indexed out of bounds, and a failed listing removes nothing. */
  lemma {:induction false} ReadComparable(desired: seq<IPAddressRequest>, responses: seq<IPAddressResponse>,
                                          order: seq<IpId>, s: State, latest: seq<IPAddressRequest>,
                                          status: seq<IPAddressResponse>)
    requires SubnetsGiven(desired) && Lists(order, s)
    requires Read(desired, responses, order, s, latest, status)
    ensures Comparable(desired, latest, status)
    ensures latest == desired ==> Plan(desired, latest, status) == []
  {
    if latest == desired {
      forall i | 0 <= i < |latest| ensures Covers(desired, latest[i].subnetID) {
        assert latest[i] in desired;
      }
      NothingAdded(desired, |desired|);
      NothingRemoved(desired, status, |desired|);
    }
  }

  /** The calls of an update before those about addresses: for the tags if they differ, and the one that
      writes the endpoint if anything does. */
  ghost function CallsBefore(delta: set<string>): nat {
    if delta == {} then 0 else if TAGS in delta then 2 else 1
  }

  /** The copy says of addresses and references what the resource says. */
  twostate predicate CopyOf(r: Endpoint, new copy: Endpoint)
    reads copy
  {
    && fresh(copy) && copy.ipAddresses == old(r.ipAddresses) && copy.ipStatuses == old(r.ipStatuses)
    && copy.securityGroupRefs == old(r.securityGroupRefs)
  }

  /** The part of sdkUpdate before the addresses. */
  method UpdateFields(b: Backend, desired: Endpoint, delta: set<string>) returns (updated: Endpoint?)
    requires b.Valid()
    modifies b`calls
    ensures b.Valid()
    ensures updated == desired <==> delta == {}
    ensures updated != null && updated != desired ==>
      CopyOf(desired, updated) && updated.ipAddressCount == Some(|b.attached|)
    ensures updated != null <==> NoFailure(b.fails, old(b.calls), old(b.calls) + CallsBefore(delta))
    ensures if updated != null then b.calls == old(b.calls) + CallsBefore(delta)
            else old(b.calls) < b.calls <= old(b.calls) + CallsBefore(delta) && b.fails(b.calls - 1)
  {
    if TAGS in delta {
      var ok := b.TagCall();
      if !ok {
        return null;
      }
    } else if delta - {TAGS} == {} {
      return desired;
    }
    var ok, count := b.UpdateEndpoint();
    if !ok {
      return null;
    }
    updated := desired.DeepCopy();
    updated.ipAddressCount := Some(count);
  }

  /** The result of SyncIPAddresses is ignored; the address count it recorded is reported. */
  method SdkUpdate(b: Backend, desired: Endpoint, latest: Endpoint, delta: set<string>)
    returns (updated: Endpoint?, ghost run: Log)
    requires b.Valid() && desired != latest
    requires Comparable(desired.ipAddresses, latest.ipAddresses, latest.ipStatuses)
    modifies b, latest`ipAddressCount
    ensures b.Valid() && b.log == old(b.log) + run
    ensures b.attached == StateAt(old(b.attached), run, |run|)
    ensures run != [] ==> IP_ADDRESSES in delta && updated != null
    ensures updated != null && IP_ADDRESSES in delta ==>
      && IsRun(Step, Plan(desired.ipAddresses, latest.ipAddresses, latest.ipStatuses), old(b.attached), run)
      && updated.ipAddressCount == CountAfter(old(latest.ipAddressCount), run)
    ensures updated != null && IP_ADDRESSES in delta && NoFailure(b.fails, old(b.calls), b.calls) ==>
      Complete(Plan(desired.ipAddresses, latest.ipAddresses, latest.ipStatuses), run) || Refused(run, b.attached)
    ensures updated == desired <==> delta == {}
    ensures updated != null && updated != desired ==> CopyOf(desired, updated)
    ensures updated != null && updated != desired && IP_ADDRESSES !in delta ==>
      updated.ipAddressCount == Some(|b.attached|)
    ensures updated != null <==> NoFailure(b.fails, old(b.calls), old(b.calls) + CallsBefore(delta))
    ensures if updated != null then b.calls == old(b.calls) + CallsBefore(delta) + |run|
            else old(b.calls) < b.calls <= old(b.calls) + CallsBefore(delta) && b.fails(b.calls - 1)
  {
    run := [];
    updated := UpdateFields(b, desired, delta);
    if updated == null || updated == desired {
      return;
    }
    if IP_ADDRESSES in delta {
      var _, r := SyncIPAddresses(b, desired, latest);
      run := r;
      updated.ipAddressCount := latest.ipAddressCount;
    }
  }

  // ----- one round -----

  /** A round from `start`: the order in which the listing showed the addresses, if it was
      completed, and the calls that were made. */
  datatype Round = Round(start: State, listing: Option<seq<IpId>>, log: Log)

  ghost function End(r: Round): State {
    StateAt(r.start, r.log, |r.log|)
  }

  ghost predicate RoundOk(desired: seq<IPAddressRequest>, r: Round) {
    match r.listing
    case None => r.log == []
    case Some(order) =>
      && Lists(order, r.start)
      && (r.log == [] || IsRun(Step, FreshPlan(desired, order, r.start), r.start, r.log))
  }

  /** What is not reported as different needs no calls: equal lists have equal subnets. */
  lemma {:induction false} SilentDelta(desired: seq<IPAddressRequest>, order: seq<IpId>, s: State,
                                       latest: seq<IPAddressRequest>)
    requires SubnetsGiven(desired) && Lists(order, s)
    ensures desired == latest == ListedRequests(order, s) ==> Subnets(s) == DesiredSubnets(desired)
  {
    if desired == ListedRequests(order, s) {
      forall x ensures x in Subnets(s) <==> x in DesiredSubnets(desired) {
        CoversListed(order, s, x);
        CoversDesired(desired, x);
      }
    }
  }

  lemma {:induction false} CloseRound(desired: seq<IPAddressRequest>, responses: seq<IPAddressResponse>,
                                      order: seq<IpId>, s: State, latest: seq<IPAddressRequest>,
                                      status: seq<IPAddressResponse>, run: Log)
    returns (round: Round)
    requires SubnetsGiven(desired) && Lists(order, s)
    requires Read(desired, responses, order, s, latest, status)
    requires Comparable(desired, latest, status)
    requires run == [] || IsRun(Step, Plan(desired, latest, status), s, run)
    ensures RoundOk(desired, round) && round.start == s && round.log == run
  {
    if latest == ListedRequests(order, s) && status == ListedResponses(order, s) {
      round := Round(s, Some(order), run);
    } else {
      ReadComparable(desired, responses, order, s, latest, status);
      round := Round(s, None, run);
    }
  }

  lemma {:induction false} NotRefused(desired: seq<IPAddressRequest>, order: seq<IpId>, s: State, run: Log)
    requires SubnetsGiven(desired) && Lists(order, s)
    requires IsRun(Step, FreshPlan(desired, order, s), s, run)
    ensures !Refused(run, StateAt(s, run, |run|))
  {
    if Refused(run, StateAt(s, run, |run|)) {
      assert TakesAt(Step, s, run, |run| - 1);
      NextCallPossible(desired, order, s, run, |run| - 1);
    }
  }

  /** Read, compare, and update if something differs. */
  method ReconcileRound(b: Backend, desired: Endpoint, others: set<string>)
    returns (updated: Endpoint?, ghost round: Round)
    requires b.Valid() && SubnetsGiven(desired.ipAddresses) && IP_ADDRESSES !in others
    modifies b
    ensures b.Valid() && b.log == old(b.log) + round.log
    ensures round.start == old(b.attached) && End(round) == b.attached
    ensures RoundOk(desired.ipAddresses, round)
    ensures NoFailure(b.fails, old(b.calls), b.calls) ==> Subnets(b.attached) == DesiredSubnets(desired.ipAddresses)
    ensures old(b.calls) < b.calls
    ensures updated != null && updated != desired ==> updated.ipAddressCount == Some(|b.attached|)
    ensures updated == desired ==> round.log == []
    ensures updated != null && updated != desired ==> CopyOf(desired, updated)
    ensures NoFailure(b.fails, old(b.calls), b.calls) ==> updated != null
  {
    ghost var s := b.attached;
    round := Round(s, None, []);
    var latest := SdkFind(b, desired);
    if latest == null {
      return null, round;
    }
    ghost var order := b.Listing();
    ReadComparable(desired.ipAddresses, desired.ipStatuses, order, s, latest.ipAddresses, latest.ipStatuses);
    var delta := NewResourceDelta(desired, latest, others);
    if delta == {} {
      SilentDelta(desired.ipAddresses, order, s, latest.ipAddresses);
      return desired, round;
    }
    ghost var run;
    updated, run := SdkUpdate(b, desired, latest, delta);
    round := CloseRound(desired.ipAddresses, desired.ipStatuses, order, s, latest.ipAddresses, latest.ipStatuses, run);
    if run != [] {
      RecordedCount(Plan(desired.ipAddresses, latest.ipAddresses, latest.ipStatuses), s, run);
    }
    if NoFailure(b.fails, old(b.calls), b.calls) {
      if IP_ADDRESSES in delta {
        NotRefused(desired.ipAddresses, order, s, run);
        CompleteRunConverges(desired.ipAddresses, order, s, run);
      } else {
        SilentDelta(desired.ipAddresses, order, s, latest.ipAddresses);
      }
    }
  }

  // ----- histories -----

  ghost predicate RoundAt(desired: seq<IPAddressRequest>, rounds: seq<Round>, i: nat)
    requires i < |rounds|
  {
    RoundOk(desired, rounds[i])
  }

  ghost predicate Linked(rounds: seq<Round>, i: nat)
    requires 0 < i < |rounds|
  {
    rounds[i].start == End(rounds[i - 1])
  }

  /** Rounds for one desired resource, each starting where the one before it ended. */
  ghost predicate History(desired: seq<IPAddressRequest>, rounds: seq<Round>) {
    && (forall i :: 0 <= i < |rounds| ==> RoundAt(desired, rounds, i))
    && (forall i :: 0 < i < |rounds| ==> Linked(rounds, i))
  }

  lemma {:induction false} RoundAllowed(desired: seq<IPAddressRequest>, r: Round)
    requires SubnetsGiven(desired) && RoundOk(desired, r)
    ensures AllAllowed(desired, r.start, r.log)
  {
    if r.log != [] {
      RunAllowed(desired, r.listing.value, r.start, r.log);
    }
  }

  lemma {:induction false} RoundFloor(desired: seq<IPAddressRequest>, r: Round, k: nat)
    requires SubnetsGiven(desired) && RoundOk(desired, r) && k <= |r.log|
    ensures |StateAt(r.start, r.log, k)| >= Min(|r.start|, |DesiredSubnets(desired)|)
  {
    if r.log != [] {
      NeverBelowFloor(desired, r.listing.value, r.start, r.log, k);
    }
  }

  lemma {:induction false} EndFloor(desired: seq<IPAddressRequest>, rounds: seq<Round>, i: nat)
    requires SubnetsGiven(desired) && History(desired, rounds) && i < |rounds|
    ensures |End(rounds[i])| >= Min(|rounds[i].start|, |DesiredSubnets(desired)|)
  {
    assert RoundAt(desired, rounds, i);
    RoundFloor(desired, rounds[i], |rounds[i].log|);
  }

  lemma {:induction false} StartFloor(desired: seq<IPAddressRequest>, rounds: seq<Round>, i: nat)
    requires SubnetsGiven(desired) && History(desired, rounds) && i < |rounds|
    ensures |rounds[i].start| >= Min(|rounds[0].start|, |DesiredSubnets(desired)|)
  {
    if i > 0 {
      StartFloor(desired, rounds, i - 1);
      assert Linked(rounds, i);
      EndFloor(desired, rounds, i - 1);
    }
  }

  /** Over any number of rounds, with any failures, the endpoint never has fewer addresses than it
      had at first or than there are desired subnets. */
  lemma {:induction false} HistoryFloor(desired: seq<IPAddressRequest>, rounds: seq<Round>, i: nat, k: nat)
    requires SubnetsGiven(desired) && History(desired, rounds)
    requires i < |rounds| && k <= |rounds[i].log|
    ensures |StateAt(rounds[i].start, rounds[i].log, k)| >= Min(|rounds[0].start|, |DesiredSubnets(desired)|)
  {
    StartFloor(desired, rounds, i);
    assert RoundAt(desired, rounds, i);
    RoundFloor(desired, rounds[i], k);
  }

  /** An endpoint with the two addresses it must always have, for which two subnets are desired,
      never drops below two. */
  lemma {:induction false} TwoAddressesAtLeast(desired: seq<IPAddressRequest>, rounds: seq<Round>, i: nat, k: nat)
    requires SubnetsGiven(desired) && History(desired, rounds)
    requires i < |rounds| && k <= |rounds[i].log|
    requires |rounds[0].start| >= 2 && |DesiredSubnets(desired)| >= 2
    ensures |StateAt(rounds[i].start, rounds[i].log, k)| >= 2
  {
    HistoryFloor(desired, rounds, i, k);
  }

  /** `t` has every address that `s` has in a desired subnet, and no more is left to do than in `s`. */
  ghost predicate NoWorse(desired: seq<IPAddressRequest>, s: State, t: State)
    requires SubnetsGiven(desired)
  {
    && (forall id :: id in s && s[id].subnet in DesiredSubnets(desired) ==> id in t && t[id] == s[id])
    && Work(desired, t) <= Work(desired, s)
  }

  lemma {:induction false} RoundProgress(desired: seq<IPAddressRequest>, r: Round, k: nat)
    requires SubnetsGiven(desired) && RoundOk(desired, r) && k <= |r.log|
    ensures NoWorse(desired, r.start, StateAt(r.start, r.log, k))
  {
    RoundAllowed(desired, r);
    NeverUncovers(desired, r.start, r.log, 0, k);
    WorkNeverGrows(desired, r.start, r.log, 0, k);
  }

  /** From one round to any point of any later one, addresses in desired subnets stay as they are
      and the work left does not grow. */
  lemma {:induction false} HistoryProgress(desired: seq<IPAddressRequest>, rounds: seq<Round>, i: nat, j: nat, k: nat)
    requires SubnetsGiven(desired) && History(desired, rounds) && i <= j < |rounds| && k <= |rounds[j].log|
    ensures NoWorse(desired, rounds[i].start, StateAt(rounds[j].start, rounds[j].log, k))
  {
    assert RoundAt(desired, rounds, j);
    RoundProgress(desired, rounds[j], k);
    if i < j {
      assert Linked(rounds, j);
      HistoryProgress(desired, rounds, i, j - 1, |rounds[j - 1].log|);
    }
  }

  ghost function Logs(rounds: seq<Round>): (logs: seq<Log>)
    ensures |logs| == |rounds| && forall i :: 0 <= i < |logs| ==> logs[i] == rounds[i].log
  {
    seq(|rounds|, i requires 0 <= i < |rounds| => rounds[i].log)
  }

  lemma {:induction false} RoundLedger(desired: seq<IPAddressRequest>, r: Round)
    requires SubnetsGiven(desired) && RoundOk(desired, r)
    ensures Work(desired, End(r)) + Successes(r.log) <= Work(desired, r.start)
    ensures StopsAtFailure(r.log)
  {
    if r.log != [] {
      RunLedger(desired, r.listing.value, r.start, r.log);
    }
  }

  lemma {:induction false} LedgerUpTo(desired: seq<IPAddressRequest>, rounds: seq<Round>, n: nat)
    requires SubnetsGiven(desired) && History(desired, rounds) && 0 < n <= |rounds|
    ensures Work(desired, End(rounds[n - 1])) + AllSuccesses(Logs(rounds)[..n]) <= Work(desired, rounds[0].start)
  {
    assert RoundAt(desired, rounds, n - 1);
    RoundLedger(desired, rounds[n - 1]);
    assert Logs(rounds)[..n][..n - 1] == Logs(rounds)[..n - 1];
    if n > 1 {
      LedgerUpTo(desired, rounds, n - 1);
      assert Linked(rounds, n - 1);
    }
  }

  /** Over any history, whatever fails and however the listings come, there are no more successful
      calls than there was work at first, and at most one call that fails for each round. */
  lemma {:induction false} HistoryLedger(desired: seq<IPAddressRequest>, rounds: seq<Round>)
    requires SubnetsGiven(desired) && History(desired, rounds) && rounds != []
    ensures Work(desired, End(rounds[|rounds| - 1])) + AllSuccesses(Logs(rounds)) <= Work(desired, rounds[0].start)
    ensures AllCalls(Logs(rounds)) <= Work(desired, rounds[0].start) + |rounds|
  {
    LedgerUpTo(desired, rounds, |rounds|);
    assert Logs(rounds)[..|rounds|] == Logs(rounds);
    forall i | 0 <= i < |rounds| ensures StopsAtFailure(Logs(rounds)[i]) {
      assert RoundAt(desired, rounds, i);
      RoundLedger(desired, rounds[i]);
    }
    CallsAndSuccesses(Logs(rounds));
  }

  /** Once the attached subnets are the desired ones, no round makes another call. */
  lemma {:induction false} HistorySettles(desired: seq<IPAddressRequest>, rounds: seq<Round>, i: nat, j: nat)
    requires SubnetsGiven(desired) && History(desired, rounds) && i <= j < |rounds|
    requires Subnets(rounds[i].start) == DesiredSubnets(desired)
    ensures rounds[j].log == [] && End(rounds[j]) == rounds[i].start
  {
    if i < j {
      assert Linked(rounds, j);
      HistorySettles(desired, rounds, i, j - 1);
    }
    var r := rounds[j];
    assert RoundAt(desired, rounds, j);
    if r.log != [] {
      NoWorkIffEqual(desired, r.start);
      WorkIsPlanLength(desired, r.listing.value, r.start);
    }
  }

  lemma {:induction false} HistorySnoc(desired: seq<IPAddressRequest>, rounds: seq<Round>, r: Round)
    requires SubnetsGiven(desired) && History(desired, rounds) && RoundOk(desired, r)
    requires rounds != [] ==> r.start == End(rounds[|rounds| - 1])
    ensures History(desired, rounds + [r])
    ensures Subnets(r.start) == DesiredSubnets(desired) ==> End(r) == r.start
  {
    var all := rounds + [r];
    forall i | 0 <= i < |all| ensures RoundAt(desired, all, i) {
      assert i < |rounds| ==> RoundAt(desired, rounds, i);
    }
    forall i | 0 < i < |all| ensures Linked(all, i) {
      assert i < |rounds| ==> Linked(rounds, i);
    }
    if Subnets(r.start) == DesiredSubnets(desired) {
      HistorySettles(desired, [r], 0, 0);
    }
  }

  /** Any number of rounds, with any failures. From the first round without one on, the attached
      subnets are the desired ones. */
  method ReconcileRounds(b: Backend, desired: Endpoint, others: seq<set<string>>)
    returns (ghost rounds: seq<Round>, ghost marks: seq<nat>)
    requires b.Valid() && SubnetsGiven(desired.ipAddresses)
    requires forall i :: 0 <= i < |others| ==> IP_ADDRESSES !in others[i]
    modifies b
    ensures b.Valid() && |rounds| == |others| && |marks| == |rounds| + 1
    ensures marks[0] == old(b.calls) && marks[|rounds|] == b.calls
    ensures History(desired.ipAddresses, rounds)
    ensures rounds != [] ==> rounds[0].start == old(b.attached) && End(rounds[|rounds| - 1]) == b.attached
    ensures (exists i :: 0 <= i < |rounds| && CleanRound(b.fails, marks, i)) ==>
      Subnets(b.attached) == DesiredSubnets(desired.ipAddresses)
  {
    rounds, marks := [], [b.calls];
    for i := 0 to |others|
      invariant b.Valid() && |rounds| == i && |marks| == i + 1 && marks[0] == old(b.calls) && marks[i] == b.calls
      invariant History(desired.ipAddresses, rounds)
      invariant if i == 0 then b.attached == old(b.attached)
                else rounds[0].start == old(b.attached) && End(rounds[i - 1]) == b.attached
      invariant (exists j :: 0 <= j < i && CleanRound(b.fails, marks, j)) ==>
        Subnets(b.attached) == DesiredSubnets(desired.ipAddresses)
    {
      var _, r := ReconcileRound(b, desired, others[i]);
      HistorySnoc(desired.ipAddresses, rounds, r);
      ghost var marks' := marks + [b.calls];
      assert forall j :: 0 <= j < i ==> CleanRound(b.fails, marks', j) == CleanRound(b.fails, marks, j);
      rounds, marks := rounds + [r], marks';
    }
  }

  // ----- what the comparison goes on reporting -----

  /** However the listing comes, the comparison reports the addresses. */
  ghost predicate AlwaysReported(desired: seq<IPAddressRequest>, s: State) {
    forall order :: Lists(order, s) ==> desired != ListedRequests(order, s)
  }

  /** However the listing comes, the comparison does not report them. */
  ghost predicate NeverReported(desired: seq<IPAddressRequest>, s: State) {
    forall order :: Lists(order, s) ==> desired == ListedRequests(order, s)
  }

  /** The desired entries are, in whatever order and each as often, those that this listing shows. */
  ghost predicate SameEntries(desired: seq<IPAddressRequest>, order: seq<IpId>, s: State)
    requires Lists(order, s)
  {
    multiset(desired) == multiset(ListedRequests(order, s))
  }

  lemma {:induction false} OrdersList(order: seq<IpId>, s: State)
    requires IsOrder(order, s.Keys)
    ensures Lists(order, s) && ListedRequests(order, s) == Image(Shown(s), order)
  {
    assert forall id :: id in order <==> id in Elems(order);
    ShownByListing(order, s);
  }

  /** Some listing makes the comparison silent exactly when the desired entries are those listed. */
  lemma {:induction false} AlwaysReportedIff(desired: seq<IPAddressRequest>, order0: seq<IpId>, s: State)
    requires Lists(order0, s)
    ensures AlwaysReported(desired, s) <==> !SameEntries(desired, order0, s)
  {
    OrdersList(order0, s);
    SomeShowsIff(Shown(s), s.Keys, order0, desired);
    forall order | IsOrder(order, s.Keys)
      ensures Lists(order, s) && ListedRequests(order, s) == Image(Shown(s), order)
    {
      OrdersList(order, s);
    }
  }

  /** Every listing makes it silent exactly when these entries are all alike besides. */
  lemma {:induction false} NeverReportedIff(desired: seq<IPAddressRequest>, order0: seq<IpId>, s: State)
    requires Lists(order0, s)
    ensures NeverReported(desired, s) <==> SameEntries(desired, order0, s) && AllAlike(desired)
  {
    OrdersList(order0, s);
    AllShowIff(Shown(s), s.Keys, order0, desired);
    forall order | IsOrder(order, s.Keys)
      ensures Lists(order, s) && ListedRequests(order, s) == Image(Shown(s), order)
    {
      OrdersList(order, s);
    }
  }

  /** The round listed the addresses, and the comparison reports them. */
  ghost predicate Reports(desired: seq<IPAddressRequest>, r: Round) {
    r.listing.Some? && Lists(r.listing.value, r.start) && desired != ListedRequests(r.listing.value, r.start)
  }

  /** A settled endpoint is left as it is by every later round. Every order of the listing is reported
      when the desired entries are not those listed, and none is when they are and are all alike.
      Otherwise it depends on the order, and goes on for as long as the order stays. */
  lemma {:induction false} SettledReportedIff(desired: seq<IPAddressRequest>, rounds: seq<Round>, i: nat, j: nat,
                                              order0: seq<IpId>)
    requires SubnetsGiven(desired) && History(desired, rounds) && i <= j < |rounds|
    requires Subnets(rounds[i].start) == DesiredSubnets(desired) && Lists(order0, rounds[i].start)
    ensures rounds[j].log == [] && rounds[j].start == rounds[i].start
    ensures AlwaysReported(desired, rounds[j].start) <==> !SameEntries(desired, order0, rounds[i].start)
    ensures NeverReported(desired, rounds[j].start) <==>
      SameEntries(desired, order0, rounds[i].start) && AllAlike(desired)
    ensures rounds[j].listing == rounds[i].listing ==> (Reports(desired, rounds[j]) <==> Reports(desired, rounds[i]))
  {
    HistorySettles(desired, rounds, i, j);
    AlwaysReportedIff(desired, order0, rounds[i].start);
    NeverReportedIff(desired, order0, rounds[i].start);
  }

  /** An address that the backend chose by itself is listed with its IP, and never equals a desired
      entry that leaves the IP open. */
  lemma {:induction false} DeltaStaysWithOpenIp(desired: seq<IPAddressRequest>, order: seq<IpId>, s: State,
                                                r: IPAddressRequest)
    requires Lists(order, s)
    requires r in desired && r.ip.None?
    requires forall id :: id in s ==> s[id].ip.Some?
    ensures desired != ListedRequests(order, s)
  {
    var i :| 0 <= i < |desired| && desired[i] == r;
    if i < |order| {
      assert order[i] in s;
    }
  }

  /** A desired entry that keeps the reference its subnet came from equals no listed one. */
  lemma {:induction false} DeltaStaysWithReference(desired: seq<IPAddressRequest>, order: seq<IpId>, s: State,
                                                   r: IPAddressRequest)
    requires Lists(order, s)
    requires r in desired && r.subnetRef.Some?
    ensures desired != ListedRequests(order, s)
  {
    var i :| 0 <= i < |desired| && desired[i] == r;
  }

  ghost function InSubnetA(ip: string): Address {
    Address(Some(ip), None, "a", "ATTACHED", None, None, None)
  }

  ghost function OneAddress(): State {
    map["x" := InSubnetA("1")]
  }

  ghost function TwoAddresses(): State {
    map["x" := InSubnetA("1"), "y" := InSubnetA("2")]
  }

  lemma {:induction false} SettledInSubnetA(r: IPAddressRequest, s: State)
    requires r.subnetID == Some("a") && "x" in s && forall id :: id in s ==> s[id].subnet == "a"
    ensures SubnetsGiven([r]) && Work([r], s) == 0
  {
    assert r in [r];
    assert s["x"].subnet in Subnets(s);
    assert Subnets(s) == {"a"} == DesiredSubnets([r]);
    NoWorkIffEqual([r], s);
  }

  ghost predicate SettledYetReported(desired: seq<IPAddressRequest>, s: State) {
    SubnetsGiven(desired) && Work(desired, s) == 0 && AlwaysReported(desired, s)
  }

  /** Three settled endpoints that are reported for ever: the desired entry leaves the IP open that
      the backend chose, or keeps the reference that its subnet came from, or a second address is
      attached in its subnet. */
  lemma {:induction false} SettledButReported(r: IPAddressRequest, subnetA: Reference)
    requires r == IPAddressRequest(Some("1"), None, Some("a"), None)
    ensures SettledYetReported([r.(ip := None)], OneAddress())
    ensures SettledYetReported([r.(subnetRef := Some(ReferenceWrapper(Some(subnetA))))], OneAddress())
    ensures SettledYetReported([r], TwoAddresses())
  {
    var open, kept := r.(ip := None), r.(subnetRef := Some(ReferenceWrapper(Some(subnetA))));
    SettledInSubnetA(open, OneAddress());
    SettledInSubnetA(kept, OneAddress());
    SettledInSubnetA(r, TwoAddresses());
    forall order | Lists(order, OneAddress())
      ensures [open] != ListedRequests(order, OneAddress()) && [kept] != ListedRequests(order, OneAddress())
    {
      DeltaStaysWithOpenIp([open], order, OneAddress(), open);
      DeltaStaysWithReference([kept], order, OneAddress(), kept);
    }
    forall order | Lists(order, TwoAddresses()) ensures [r] != ListedRequests(order, TwoAddresses()) {
      OrderLength(order, TwoAddresses().Keys);
    }
  }

  ghost function BothAddresses(): seq<IPAddressRequest> {
    [IPAddressRequest(Some("1"), None, Some("a"), None), IPAddressRequest(Some("2"), None, Some("a"), None)]
  }

  lemma {:induction false} OtherOrder()
    ensures Lists(["y", "x"], TwoAddresses())
    ensures ListedRequests(["y", "x"], TwoAddresses()) == [BothAddresses()[1], BothAddresses()[0]]
  {
    var order := ["y", "x"];
    assert order[0] == "y" && order[1] == "x" && "x"[0] != "y"[0];
    assert Elems(order) == TwoAddresses().Keys;
    OrdersList(order, TwoAddresses());
  }

  lemma {:induction false} BothSettled()
    ensures SubnetsGiven(BothAddresses()) && Work(BothAddresses(), TwoAddresses()) == 0
  {
    var desired, s := BothAddresses(), TwoAddresses();
    assert s["x"].subnet in Subnets(s) && desired[0] in desired;
    assert Subnets(s) == {"a"} == DesiredSubnets(desired);
    NoWorkIffEqual(desired, s);
  }

  /** The two attached addresses are desired as they are, only in another order than the one in which
      they are listed: every one of any number of rounds reports them, though nothing is left to do
      and the same entries are listed. */
  lemma {:induction false} OtherOrderReported(n: nat) returns (rounds: seq<Round>)
    ensures SubnetsGiven(BothAddresses()) && Work(BothAddresses(), TwoAddresses()) == 0
    ensures Lists(["y", "x"], TwoAddresses()) && SameEntries(BothAddresses(), ["y", "x"], TwoAddresses())
    ensures History(BothAddresses(), rounds) && |rounds| == n
    ensures forall i :: 0 <= i < n ==>
      rounds[i] == Round(TwoAddresses(), Some(["y", "x"]), []) && Reports(BothAddresses(), rounds[i])
  {
    OtherOrder();
    BothSettled();
    var desired, round := BothAddresses(), Round(TwoAddresses(), Some(["y", "x"]), []);
    assert desired == [desired[0]] + [desired[1]];
    assert ListedRequests(["y", "x"], TwoAddresses()) == [desired[1]] + [desired[0]];
    rounds := seq(n, i => round);
    assert forall i :: 0 <= i < n ==> RoundAt(desired, rounds, i);
    assert forall i :: 0 < i < n ==> Linked(rounds, i);
    assert desired[0] != desired[1];
  }
}
