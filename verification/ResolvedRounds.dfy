/** Rounds of an endpoint whose subnets are given by reference: the references are resolved in the
    desired resource before it is compared with what is there. */
module ResolvedRounds {
  import opened Wrappers
  import opened Runs
  import opened EndpointTypes
  import opened EndpointBackend
  import opened EndpointHook
  import opened EndpointRuns
  import opened EndpointRounds
  import opened References

  /** Each address comes with a subnet ID or with a reference that has a From. */
  ghost predicate SubnetsKnown(ips: seq<IPAddressRequest>) {
    forall i :: 0 <= i < |ips| ==> ips[i].subnetID.Some? || HasFrom(ips[i].subnetRef)
  }

  ghost predicate SomeReference(ips: seq<IPAddressRequest>) {
    exists i :: 0 <= i < |ips| && HasFrom(ips[i].subnetRef)
  }

  /** Each reference has been replaced by the ID of the usable target it leads to. */
  ghost predicate ReferencesUsed(c: Cluster, ips: seq<IPAddressRequest>, now: seq<IPAddressRequest>) {
    && |now| == |ips|
    && forall i :: 0 <= i < |ips| && HasFrom(ips[i].subnetRef) ==>
         From(c, c.subnets, ips[i].subnetRef.value.from.value, now[i].subnetID)
  }

  lemma {:induction false} ReferencesStayReported(c: Cluster, ips: seq<IPAddressRequest>,
                                                  ips': seq<IPAddressRequest>, s: State)
    requires SubnetsResolvedTo(c, ips, ips', |ips|)
    requires SomeReference(ips)
    ensures AlwaysReported(ips', s)
  {
    var i :| 0 <= i < |ips| && HasFrom(ips[i].subnetRef);
    forall order | Lists(order, s) ensures ips' != ListedRequests(order, s) {
      assert ips'[i] in ips' && ips'[i].subnetRef.Some?;
      DeltaStaysWithReference(ips', order, s, ips'[i]);
    }
  }

  /** If the references do not resolve, nothing is done. If they do, and no call of the round fails,
      an address is attached in the subnet of each usable target they refer to. A resource with a
      reference goes on being reported. */
  method ResolveThenReconcile(c: Cluster, b: Backend, desired: Endpoint, others: set<string>)
    returns (err: Option<RefError>, ghost round: Round)
    requires b.Valid() && IP_ADDRESSES !in others && SubnetsKnown(desired.ipAddresses)
    modifies b, desired`ipAddresses, desired`securityGroupIDs
    ensures err.Some? ==> b.attached == old(b.attached) && b.calls == old(b.calls)
    ensures |desired.ipAddresses| == |old(desired.ipAddresses)|
    ensures err.None? ==> SubnetsGiven(desired.ipAddresses) && RoundOk(desired.ipAddresses, round)
    ensures err.None? ==> round.start == old(b.attached) && End(round) == b.attached && b.log == old(b.log) + round.log
    ensures err.None? ==> ReferencesUsed(c, old(desired.ipAddresses), desired.ipAddresses)
    ensures err.None? && NoFailure(b.fails, old(b.calls), b.calls) ==>
      forall i :: 0 <= i < |desired.ipAddresses| ==> desired.ipAddresses[i].subnetID.value in Subnets(b.attached)
    ensures err.None? && SomeReference(old(desired.ipAddresses)) ==> AlwaysReported(desired.ipAddresses, b.attached)
  {
    ghost var ips, ids := desired.ipAddresses, desired.securityGroupIDs;
    round := Round(b.attached, None, []);
    var has;
    ghost var m, n;
    has, err, m, n := ResolveReferences(c, desired);
    if err.Some? {
      return;
    }
    SubnetsGivenIff(c, ips, desired.ipAddresses);
    forall i | 0 <= i < |ips| && HasFrom(ips[i].subnetRef)
      ensures From(c, c.subnets, ips[i].subnetRef.value.from.value, desired.ipAddresses[i].subnetID)
    {
      NoErrorMeansResolved(c, ips, ids, desired.securityGroupRefs,
                           desired.ipAddresses, desired.securityGroupIDs, m, n, i);
    }
    var _, r := ReconcileRound(b, desired, others);
    round := r;
    assert forall i :: 0 <= i < |ips| ==> desired.ipAddresses[i] in desired.ipAddresses;
    if SomeReference(ips) {
      ReferencesStayReported(c, ips, desired.ipAddresses, b.attached);
    }
  }
}
