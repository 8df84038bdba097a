/** pkg/resource/resolver_endpoint/hook.go: list the attached addresses, compare them with the
    desired ones subnet by subnet, and attach and detach addresses one call at a time. */
module EndpointHook {
  import opened Wrappers
  import opened Orders
  import opened Runs
  import opened EndpointTypes
  import opened EndpointBackend

  // ----- listing -----

  ghost function RequestOf(e: ListedAddress): IPAddressRequest {
    IPAddressRequest(e.ip, e.ipv6, e.subnetId, None)
  }

  ghost function ResponseOf(e: ListedAddress): IPAddressResponse {
    IPAddressResponse(e.creationTime, None, e.ipId, None, e.modificationTime,
                      if e.status == "" then None else Some(e.status), e.statusMessage, None)
  }

  ghost function RequestsOf(es: seq<ListedAddress>): (r: seq<IPAddressRequest>)
    ensures |r| == |es| && forall i :: 0 <= i < |r| ==> r[i] == RequestOf(es[i])
  {
    seq(|es|, i requires 0 <= i < |es| => RequestOf(es[i]))
  }

  ghost function ResponsesOf(es: seq<ListedAddress>): (r: seq<IPAddressResponse>)
    ensures |r| == |es| && forall i :: 0 <= i < |r| ==> r[i] == ResponseOf(es[i])
  {
    seq(|es|, i requires 0 <= i < |es| => ResponseOf(es[i]))
  }

  lemma {:induction false} ConvertOneMore(es: seq<ListedAddress>, e: ListedAddress)
    ensures RequestsOf(es + [e]) == RequestsOf(es) + [RequestOf(e)]
    ensures ResponsesOf(es + [e]) == ResponsesOf(es) + [ResponseOf(e)]
  {
  }

  /** What a listing shows of one address. */
  ghost function Shown(s: State): IpId -> IPAddressRequest {
    id => if id in s then RequestOf(Describe(id, s[id])) else IPAddressRequest(None, None, None, None)
  }

  ghost function ShownStatus(s: State): IpId -> IPAddressResponse {
    id => if id in s then ResponseOf(Describe(id, s[id]))
          else IPAddressResponse(None, None, None, None, None, None, None, None)
  }

  lemma {:induction false} ShownByListing(order: seq<IpId>, s: State)
    requires forall id :: id in order ==> id in s
    ensures RequestsOf(DescribeAll(order, s)) == Image(Shown(s), order)
    ensures ResponsesOf(DescribeAll(order, s)) == Image(ShownStatus(s), order)
  {
    assert forall i :: 0 <= i < |order| ==> order[i] in s;
  }

  /** The two entries that a listing makes of an attached address, field by field. */
  ghost predicate Describes(request: IPAddressRequest, response: IPAddressResponse, id: IpId, a: Address) {
    && request.ip == a.ip && request.ipv6 == a.ipv6 && request.subnetID == Some(a.subnet) && request.subnetRef == None
    && response.ipID == Some(id) && response.status == (if a.status == "" then None else Some(a.status))
    && response.statusMessage == a.statusMessage
    && response.creationTime == a.creationTime && response.modificationTime == a.modificationTime
    && response.ip == None && response.ipv6 == None && response.subnetID == None
  }

  lemma {:induction false} ImageAppend<K, V>(f: K -> V, a: seq<K>, b: seq<K>)
    ensures Image(f, a + b) == Image(f, a) + Image(f, b)
  {
  }

  /** What the first `n` pages show. */
  ghost function Collected<V>(f: IpId -> V, layout: seq<seq<IpId>>, n: nat): seq<V>
    requires n <= |layout|
  {
    if n == 0 then [] else Collected(f, layout, n - 1) + Image(f, layout[n - 1])
  }

  lemma {:induction false} CollectedAll<V>(f: IpId -> V, layout: seq<seq<IpId>>, n: nat)
    requires n <= |layout|
    ensures Collected(f, layout, n) == Image(f, Flatten(layout, n))
  {
    if n > 0 {
      CollectedAll(f, layout, n - 1);
      ImageAppend(f, Flatten(layout, n - 1), layout[n - 1]);
    }
  }
  /** The body of the inner loop of ListAttachedIPAddresses. */
  method Convert(elem: ListedAddress) returns (f1: IPAddressRequest, f3: IPAddressResponse)
    ensures f1 == RequestOf(elem) && f3 == ResponseOf(elem)
  {
    f1 := IPAddressRequest(None, None, None, None);
    f3 := IPAddressResponse(None, None, None, None, None, None, None, None);
    if elem.ip.Some? { f1 := f1.(ip := elem.ip); }
    if elem.ipv6.Some? { f1 := f1.(ipv6 := elem.ipv6); }
    if elem.subnetId.Some? { f1 := f1.(subnetID := elem.subnetId); }
    if elem.creationTime.Some? { f3 := f3.(creationTime := elem.creationTime); }
    if elem.modificationTime.Some? { f3 := f3.(modificationTime := elem.modificationTime); }
    if elem.status != "" { f3 := f3.(status := Some(elem.status)); }
    if elem.statusMessage.Some? { f3 := f3.(statusMessage := elem.statusMessage); }
    if elem.ipId.Some? { f3 := f3.(ipID := elem.ipId); }
  }

  /** The inner loop of ListAttachedIPAddresses: one page is appended to both lists. */
  method AppendPage(requests: seq<IPAddressRequest>, responses: seq<IPAddressResponse>, page: seq<ListedAddress>)
    returns (f0: seq<IPAddressRequest>, f2: seq<IPAddressResponse>)
    ensures f0 == requests + RequestsOf(page) && f2 == responses + ResponsesOf(page)
  {
    f0, f2 := requests, responses;
    for i := 0 to |page|
      invariant f0 == requests + RequestsOf(page[..i])
      invariant f2 == responses + ResponsesOf(page[..i])
    {
      var elem := page[i];
      var f1, f3 := Convert(elem);
      ConvertOneMore(page[..i], elem);
      assert page[..i + 1] == page[..i] + [elem];
      f0 := f0 + [f1];
      f2 := f2 + [f3];
    }
    assert page[..|page|] == page;
  }

  /** One turn of the outer loop: page number `page` is asked for and appended. */
  method ReadPage(b: Backend, token: Option<nat>, ghost page: nat,
                  requests: seq<IPAddressRequest>, responses: seq<IPAddressResponse>)
    returns (got: bool, nextToken: Option<nat>, f0: seq<IPAddressRequest>, f2: seq<IPAddressResponse>)
    requires b.Valid() && page < |b.layout| && token == if page == 0 then None else Some(page)
    requires requests == Collected(Shown(b.attached), b.layout, page)
    requires responses == Collected(ShownStatus(b.attached), b.layout, page)
    modifies b`calls
    ensures b.Valid() && b.calls == old(b.calls) + 1 && got == !b.fails(old(b.calls))
    ensures got ==> f0 == Collected(Shown(b.attached), b.layout, page + 1)
    ensures got ==> f2 == Collected(ShownStatus(b.attached), b.layout, page + 1)
    ensures got ==> nextToken == if page + 1 < |b.layout| then Some(page + 1) else None
  {
    var resp;
    got, resp := b.ListPage(token);
    if !got {
      return false, None, requests, responses;
    }
    ShownByListing(b.layout[page], b.attached);
    f0, f2 := AppendPage(requests, responses, resp.addresses);
    nextToken := resp.nextToken;
  }

  /** The outer loop: follows the page tokens to the end. */
  method ReadPages(b: Backend) returns (ok: bool, f0: seq<IPAddressRequest>, f2: seq<IPAddressResponse>)
    requires b.Valid()
    modifies b`calls
    ensures ok <==> NoFailure(b.fails, old(b.calls), old(b.calls) + |b.layout|)
    ensures ok <==> NoFailure(b.fails, old(b.calls), b.calls)
    ensures old(b.calls) < b.calls <= old(b.calls) + |b.layout|
    ensures ok ==> f0 == Collected(Shown(b.attached), b.layout, |b.layout|)
    ensures ok ==> f2 == Collected(ShownStatus(b.attached), b.layout, |b.layout|)
  {
    var nextToken: Option<nat> := None;
    f0, f2 := [], [];
    ghost var page: nat := 0;
    while true
      invariant b.Valid() && page < |b.layout|
      invariant b.calls == old(b.calls) + page && NoFailure(b.fails, old(b.calls), b.calls)
      invariant nextToken == if page == 0 then None else Some(page)
      invariant f0 == Collected(Shown(b.attached), b.layout, page)
      invariant f2 == Collected(ShownStatus(b.attached), b.layout, page)
      decreases |b.layout| - page
    {
      ok, nextToken, f0, f2 := ReadPage(b, nextToken, page, f0, f2);
      if !ok {
        return;
      }
      if nextToken.None? {
        break;
      }
      page := page + 1;
    }
  }

  /** Follows the page tokens to the end and only then replaces both lists of the resource. Page `k`
      is asked for by the `k`-th call, and the listing stops at the first of these that fails. */
  method ListAttachedIPAddresses(b: Backend, ko: Endpoint) returns (ok: bool)
    requires b.Valid()
    modifies b`calls, ko`ipAddresses, ko`ipStatuses
    ensures b.Valid() && b.Listing() == old(b.Listing())
    ensures ok ==> ko.ipAddresses == RequestsOf(DescribeAll(b.Listing(), b.attached))
    ensures ok ==> ko.ipStatuses == ResponsesOf(DescribeAll(b.Listing(), b.attached))
    ensures ok ==> |ko.ipAddresses| == |ko.ipStatuses| == |b.Listing()|
    ensures ok ==> forall i :: 0 <= i < |b.Listing()| ==>
      Describes(ko.ipAddresses[i], ko.ipStatuses[i], b.Listing()[i], b.attached[b.Listing()[i]])
    ensures !ok ==> ko.ipAddresses == old(ko.ipAddresses) && ko.ipStatuses == old(ko.ipStatuses)
    ensures ok <==> NoFailure(b.fails, old(b.calls), old(b.calls) + |b.layout|)
    ensures ok <==> NoFailure(b.fails, old(b.calls), b.calls)
    ensures old(b.calls) < b.calls <= old(b.calls) + |b.layout|
  {
    var f0, f2;
    ok, f0, f2 := ReadPages(b);
    if !ok {
      return false;
    }
    CollectedAll(Shown(b.attached), b.layout, |b.layout|);
    CollectedAll(ShownStatus(b.attached), b.layout, |b.layout|);
    ShownByListing(b.Listing(), b.attached);
    ko.ipAddresses := f0;
    ko.ipStatuses := f2;
  }

  // ----- the difference -----

  ghost predicate Covers(list: seq<IPAddressRequest>, subnet: Option<string>) {
    exists r :: r in list && r.subnetID == subnet
  }

  /** Both loops dereference every subnet ID. */
  ghost predicate SubnetsGiven(list: seq<IPAddressRequest>) {
    forall r :: r in list ==> r.subnetID.Some?
  }

  /** The status list is only indexed at the addresses that are to go. */
  ghost predicate StatusReaches(desired: seq<IPAddressRequest>, latest: seq<IPAddressRequest>,
                                status: seq<IPAddressResponse>) {
    forall i :: 0 <= i < |latest| && !Covers(desired, latest[i].subnetID) ==> i < |status|
  }

  ghost predicate Comparable(desired: seq<IPAddressRequest>, latest: seq<IPAddressRequest>,
                             status: seq<IPAddressResponse>) {
    SubnetsGiven(desired) && SubnetsGiven(latest) && StatusReaches(desired, latest, status)
  }

  /** Of the first `n` desired addresses, those whose subnet is not attached yet. */
  ghost function Added(desired: seq<IPAddressRequest>, latest: seq<IPAddressRequest>, n: nat): seq<IPAddressRequest>
    requires n <= |desired|
  {
    if n == 0 then [] else
      Added(desired, latest, n - 1)
      + if Covers(latest, desired[n - 1].subnetID) then [] else [desired[n - 1]]
  }

  /** Of the first `n` attached addresses, the IDs of those whose subnet is not desired. */
  ghost function Removed(desired: seq<IPAddressRequest>, latest: seq<IPAddressRequest>,
                         status: seq<IPAddressResponse>, n: nat): seq<Option<IpId>>
    requires n <= |latest| && StatusReaches(desired, latest, status)
  {
    if n == 0 then [] else
      Removed(desired, latest, status, n - 1)
      + if Covers(desired, latest[n - 1].subnetID) then [] else [status[n - 1].ipID]
  }

  method InIpAddress(subnetId: string, ipAddresses: seq<IPAddressRequest>) returns (found: bool)
    requires SubnetsGiven(ipAddresses)
    ensures found <==> Covers(ipAddresses, Some(subnetId))
  {
    for i := 0 to |ipAddresses|
      invariant forall j :: 0 <= j < i ==> ipAddresses[j].subnetID != Some(subnetId)
    {
      if ipAddresses[i].subnetID.value == subnetId {
        return true;
      }
    }
    return false;
  }

  method GetIPAddressDifference(desired: Endpoint, latest: Endpoint)
    returns (added: seq<IPAddressRequest>, removed: seq<Option<IpId>>)
    requires Comparable(desired.ipAddresses, latest.ipAddresses, latest.ipStatuses)
    ensures added == Added(desired.ipAddresses, latest.ipAddresses, |desired.ipAddresses|)
    ensures removed == Removed(desired.ipAddresses, latest.ipAddresses, latest.ipStatuses, |latest.ipAddresses|)
  {
    added, removed := [], [];
    for i := 0 to |desired.ipAddresses|
      invariant added == Added(desired.ipAddresses, latest.ipAddresses, i)
    {
      var ipa := desired.ipAddresses[i];
      var found := InIpAddress(ipa.subnetID.value, latest.ipAddresses);
      if !found {
        added := added + [ipa];
      }
    }
    for i := 0 to |latest.ipAddresses|
      invariant removed == Removed(desired.ipAddresses, latest.ipAddresses, latest.ipStatuses, i)
    {
      var ipa := latest.ipAddresses[i];
      var found := InIpAddress(ipa.subnetID.value, desired.ipAddresses);
      if !found {
        removed := removed + [latest.ipStatuses[i].ipID];
      }
    }
  }

  // ----- the calls -----

  ghost function Attachments(added: seq<IPAddressRequest>): (plan: seq<Call>)
    ensures |plan| == |added| && forall k :: 0 <= k < |plan| ==> plan[k] == Attach(added[k])
  {
    seq(|added|, k requires 0 <= k < |added| => Attach(added[k]))
  }

  ghost function Detachments(removed: seq<Option<IpId>>): (plan: seq<Call>)
    ensures |plan| == |removed| && forall k :: 0 <= k < |plan| ==> plan[k] == Detach(removed[k])
  {
    seq(|removed|, k requires 0 <= k < |removed| => Detach(removed[k]))
  }

  /** All additions, then all removals. */
  ghost function PlanOf(added: seq<IPAddressRequest>, removed: seq<Option<IpId>>): seq<Call> {
    Attachments(added) + Detachments(removed)
  }

  ghost function Plan(desired: seq<IPAddressRequest>, latest: seq<IPAddressRequest>,
                      status: seq<IPAddressResponse>): seq<Call>
    requires StatusReaches(desired, latest, status)
  {
    PlanOf(Added(desired, latest, |desired|), Removed(desired, latest, status, |latest|))
  }

  lemma {:induction false} AddedMembers(desired: seq<IPAddressRequest>, latest: seq<IPAddressRequest>, n: nat)
    requires n <= |desired|
    ensures forall r :: r in Added(desired, latest, n) <==> r in desired[..n] && !Covers(latest, r.subnetID)
  {
    if n > 0 {
      AddedMembers(desired, latest, n - 1);
      assert desired[..n] == desired[..n - 1] + [desired[n - 1]];
    }
  }

  lemma {:induction false} AddedGiven(desired: seq<IPAddressRequest>, latest: seq<IPAddressRequest>)
    requires SubnetsGiven(desired)
    ensures SubnetsGiven(Added(desired, latest, |desired|))
  {
    AddedMembers(desired, latest, |desired|);
    assert desired[..|desired|] == desired;
  }

  /** The recorded address count follows the endpoint, also when the run stops early. */
  ghost function CountAfter(count: Option<int>, run: Log): Option<int> {
    if run == [] || (|run| == 1 && !run[0].ok) then count else Some(|run[|run| - 1].after|)
  }

  lemma {:induction false} CountThen(count: Option<int>, s: State, run: Log, mid: State, more: Log)
    requires AllOk(run) && mid == StateAt(s, run, |run|)
    requires |more| > 0 ==> TakesAt(Step, mid, more, 0)
    ensures CountAfter(CountAfter(count, run), more) == CountAfter(count, run + more)
  {
  }

  /** The run ended with the removal of an address that is not attached. */
  ghost predicate Refused(run: Log, now: State) {
    && |run| > 0
    && var last := run[|run| - 1];
       !last.ok && last.call.Detach? && (last.call.id.Some? ==> last.call.id.value !in now)
  }

  /** The first half of SyncIPAddresses: the additions. */
  method AttachAll(b: Backend, latest: Endpoint, added: seq<IPAddressRequest>) returns (ok: bool, ghost run: Log)
    requires b.Valid() && SubnetsGiven(added)
    modifies b, latest`ipAddressCount
    ensures b.Valid() && b.log == old(b.log) + run
    ensures Ran(Step, Attachments(added), old(b.attached), run, b.attached, ok)
    ensures latest.ipAddressCount == CountAfter(old(latest.ipAddressCount), run)
    ensures b.calls == old(b.calls) + |run| && (ok ==> NoFailure(b.fails, old(b.calls), b.calls))
    ensures !ok ==> old(b.calls) < b.calls && b.fails(b.calls - 1)
  {
    run := [];
    ghost var plan := Attachments(added);
    for i := 0 to |added|
      invariant b.Valid() && |run| == i && b.log == old(b.log) + run
      invariant SoFar(Step, plan, old(b.attached), run, b.attached)
      invariant latest.ipAddressCount == CountAfter(old(latest.ipAddressCount), run)
      invariant b.calls == old(b.calls) + i && NoneFails(b.fails, old(b.calls), b.calls)
    {
      ghost var now := b.attached;
      var done, n := b.Associate(added[i]);
      ghost var e := b.log[|b.log| - 1];
      OneMoreLogged(Step, plan, old(b.attached), old(b.log), run, now, e);
      run := run + [e];
      if !done {
        return false, run;
      }
      latest.ipAddressCount := Some(n);
    }
    SoFarAll(Step, plan, old(b.attached), run, b.attached);
    NoneFailsMeans(b.fails, old(b.calls), b.calls);
    return true, run;
  }

  /** The second half: the removals. */
  method DetachAll(b: Backend, latest: Endpoint, removed: seq<Option<IpId>>) returns (ok: bool, ghost run: Log)
    requires b.Valid()
    modifies b, latest`ipAddressCount
    ensures b.Valid() && b.log == old(b.log) + run
    ensures Ran(Step, Detachments(removed), old(b.attached), run, b.attached, ok)
    ensures latest.ipAddressCount == CountAfter(old(latest.ipAddressCount), run)
    ensures b.calls == old(b.calls) + |run| && (ok ==> NoFailure(b.fails, old(b.calls), b.calls))
    ensures NoFailure(b.fails, old(b.calls), b.calls) && !ok ==> Refused(run, b.attached)
  {
    run := [];
    for i := 0 to |removed|
      invariant b.Valid() && |run| == i && b.log == old(b.log) + run
      invariant SoFar(Step, Detachments(removed), old(b.attached), run, b.attached)
      invariant latest.ipAddressCount == CountAfter(old(latest.ipAddressCount), run)
      invariant b.calls == old(b.calls) + i && NoneFails(b.fails, old(b.calls), b.calls)
    {
      ghost var now := b.attached;
      var done, n := b.Disassociate(removed[i]);
      ghost var e := b.log[|b.log| - 1];
      OneMoreLogged(Step, Detachments(removed), old(b.attached), old(b.log), run, now, e);
      run := run + [e];
      if !done {
        NoneFailsMeans(b.fails, old(b.calls), b.calls);
        return false, run;
      }
      latest.ipAddressCount := Some(n);
    }
    SoFarAll(Step, Detachments(removed), old(b.attached), run, b.attached);
    NoneFailsMeans(b.fails, old(b.calls), b.calls);
    return true, run;
  }

  /** Runs the plan until it is done or a call fails; the run is returned for the proofs. */
  method SyncIPAddresses(b: Backend, desired: Endpoint, latest: Endpoint) returns (ok: bool, ghost run: Log)
    requires b.Valid() && desired != latest
    requires Comparable(desired.ipAddresses, latest.ipAddresses, latest.ipStatuses)
    modifies b, latest`ipAddressCount
    ensures b.Valid() && b.log == old(b.log) + run
    ensures Ran(Step, Plan(desired.ipAddresses, latest.ipAddresses, latest.ipStatuses),
                old(b.attached), run, b.attached, ok)
    ensures latest.ipAddressCount == CountAfter(old(latest.ipAddressCount), run)
    ensures b.calls == old(b.calls) + |run| && (ok ==> NoFailure(b.fails, old(b.calls), b.calls))
    ensures NoFailure(b.fails, old(b.calls), b.calls) && !ok ==> Refused(run, b.attached)
  {
    var added, removed := GetIPAddressDifference(desired, latest);
    AddedGiven(desired.ipAddresses, latest.ipAddresses);
    ghost var s, count, p, q := b.attached, latest.ipAddressCount, Attachments(added), Detachments(removed);
    ok, run := AttachAll(b, latest, added);
    if !ok {
      RunShort(Step, p, q, s, run, b.attached);
      return;
    }
    ghost var mid, more := b.attached, [];
    ok, more := DetachAll(b, latest, removed);
    RunThen(Step, p, q, s, run, mid, more, b.attached, ok);
    CountThen(count, s, run, mid, more);
    assert more != [] ==> (run + more)[|run + more| - 1] == more[|more| - 1];
    Regroup(old(b.log), run, more);
    run := run + more;
  }
}
