/** The remote Route 53 Resolver endpoint: the addresses attached to it, the calls that change
    them, and what a sequence of such calls looks like. A call either fails and changes nothing
    or takes effect at once; nothing else changes the endpoint meanwhile. */
module EndpointBackend {
  import opened Wrappers
  import opened Orders
  import opened Runs
  import opened EndpointTypes

  type IpId = string

  datatype Address = Address(
    ip: Option<string>,
    ipv6: Option<string>,
    subnet: string,
    status: string,
    statusMessage: Option<string>,
    creationTime: Option<string>,
    modificationTime: Option<string>)

  /** The attached addresses, by address ID. */
  type State = map<IpId, Address>

  /** One entry of a ListResolverEndpointIpAddresses answer. */
  datatype ListedAddress = ListedAddress(
    ip: Option<string>,
    ipv6: Option<string>,
    subnetId: Option<string>,
    ipId: Option<string>,
    status: string,
    statusMessage: Option<string>,
    creationTime: Option<string>,
    modificationTime: Option<string>)

  datatype Page = Page(addresses: seq<ListedAddress>, nextToken: Option<nat>)

  datatype Call =
    | Attach(request: IPAddressRequest)
    | Detach(id: Option<IpId>)

  type Log = seq<Event<State, Call>>

  ghost function Subnets(s: State): set<string> {
    set id | id in s :: s[id].subnet
  }

  function Describe(id: IpId, a: Address): ListedAddress {
    ListedAddress(a.ip, a.ipv6, Some(a.subnet), Some(id), a.status, a.statusMessage,
                  a.creationTime, a.modificationTime)
  }

  function DescribeAll(ids: seq<IpId>, s: State): (r: seq<ListedAddress>)
    requires forall id :: id in ids ==> id in s
    ensures |r| == |ids| && forall i :: 0 <= i < |r| ==> r[i] == Describe(ids[i], s[ids[i]])
  {
    seq(|ids|, i requires 0 <= i < |ids| => Describe(ids[i], s[ids[i]]))
  }

  /** What the first `n` pages hold, in order. */
  ghost function Flatten<T>(pages: seq<seq<T>>, n: nat): seq<T>
    requires n <= |pages|
  {
    if n == 0 then [] else Flatten(pages, n - 1) + pages[n - 1]
  }

  lemma {:induction false} FlattenHas<T>(pages: seq<seq<T>>, n: nat, k: nat)
    requires k < n <= |pages|
    ensures forall x :: x in pages[k] ==> x in Flatten(pages, n)
  {
    if k < n - 1 {
      FlattenHas(pages, n - 1, k);
    }
  }

  ghost predicate Attaches(s: State, request: IPAddressRequest, id: IpId, a: Address, t: State) {
    && id !in s
    && request.subnetID == Some(a.subnet)
    && (request.ip.Some? ==> a.ip == request.ip)
    && (request.ipv6.Some? ==> a.ipv6 == request.ipv6)
    && t == s[id := a]
  }

  /** The effect of a successful call. */
  ghost predicate Step(s: State, c: Call, t: State) {
    match c
    case Attach(request) => exists id, a :: Attaches(s, request, id, a, t)
    case Detach(id) => id.Some? && id.value in s && t == s - {id.value}
  }

  method FreshId(taken: set<IpId>) returns (id: IpId)
    ensures id !in taken
  {
    var rest, longest: nat := taken, 0;
    while rest != {}
      invariant rest <= taken
      invariant forall x :: x in taken - rest ==> |x| <= longest
      decreases rest
    {
      var x :| x in rest;
      rest, longest := rest - {x}, if |x| > longest then |x| else longest;
    }
    assert taken - rest == taken;
    id := seq(longest + 1, _ => 'i');
  }

  class Backend {
    var attached: State
    var layout: seq<seq<IpId>>     // how a listing would be cut into pages, and in what order
    var calls: nat
    const fails: nat -> bool       // whether the n-th call is made to fail
    ghost var log: Log      // the calls that may change the attached addresses

    ghost predicate Valid()
      reads this`layout, this`attached
    {
      |layout| > 0 && IsOrder(Flatten(layout, |layout|), attached.Keys)
    }

    /** The address IDs in listing order. */
    ghost function Listing(): (order: seq<IpId>)
      reads this`layout, this`attached
      requires Valid()
      ensures IsOrder(order, attached.Keys)
      ensures forall id :: id in order ==> id in attached
    {
      var order := Flatten(layout, |layout|);
      assert forall id :: id in order <==> id in Elems(order);
      order
    }

    constructor (attached: State, layout: seq<seq<IpId>>, fails: nat -> bool)
      requires |layout| > 0 && IsOrder(Flatten(layout, |layout|), attached.Keys)
      ensures Valid() && this.attached == attached && this.layout == layout
      ensures this.fails == fails && log == []
    {
      this.attached, this.layout, this.fails := attached, layout, fails;
      calls, log := 0, [];
    }

    /** GetResolverEndpoint, of whose answer only the address count matters here. */
    method GetEndpoint() returns (ok: bool, count: int)
      requires Valid()
      modifies this`calls
      ensures Valid()
      ensures calls == old(calls) + 1
      ensures ok == !fails(old(calls))
      ensures ok ==> count == |attached|
    {
      ok, count := !fails(calls), |attached|;
      calls := calls + 1;
    }

    /** UpdateResolverEndpoint, which changes neither addresses nor subnets. */
    method UpdateEndpoint() returns (ok: bool, count: int)
      requires Valid()
      modifies this`calls
      ensures Valid()
      ensures calls == old(calls) + 1
      ensures ok == !fails(old(calls))
      ensures ok ==> count == |attached|
    {
      ok, count := GetEndpoint();
    }

    /** Reading or writing the tags. */
    method TagCall() returns (ok: bool)
      modifies this`calls
      ensures calls == old(calls) + 1
      ensures ok == !fails(old(calls))
    {
      ok := !fails(calls);
      calls := calls + 1;
    }

    /** ListResolverEndpointIpAddresses; the token is the position of a page. */
    method ListPage(token: Option<nat>) returns (ok: bool, page: Page)
      requires Valid()
      requires token.Some? ==> token.value < |layout|
      modifies this`calls
      ensures Valid()
      ensures calls == old(calls) + 1
      ensures ok == !fails(old(calls))
      ensures var k := if token.Some? then token.value else 0;
        && (forall id :: id in layout[k] ==> id in attached)
        && (ok ==> page == Page(DescribeAll(layout[k], attached),
                                if k + 1 < |layout| then Some(k + 1) else None))
    {
      var k := if token.Some? then token.value else 0;
      FlattenHas(layout, |layout|, k);
      assert forall id :: id in Listing() ==> id in attached;
      ok := !fails(calls);
      calls := calls + 1;
      page := Page(DescribeAll(layout[k], attached), if k + 1 < |layout| then Some(k + 1) else None);
    }

    /** AssociateResolverEndpointIpAddress */
    method Associate(request: IPAddressRequest) returns (ok: bool, count: int)
      requires Valid() && request.subnetID.Some?
      modifies this
      ensures Valid()
      ensures log == old(log) + [Event(Attach(request), ok, attached)]
      ensures Takes(Step, old(attached), log[|log| - 1])
      ensures calls == old(calls) + 1
      ensures ok == !fails(old(calls))
      ensures ok ==> count == |attached|
    {
      ghost var before := attached;
      ok := !fails(calls);
      calls := calls + 1;
      if ok {
        var id := FreshId(attached.Keys);
        var a := Address(request.ip, request.ipv6, request.subnetID.value, "CREATING", None, None, None);
        attached := attached[id := a];
        assert Attaches(before, request, id, a, attached);
        Relayout();
      }
      count := |attached|;
      log := log + [Event(Attach(request), ok, attached)];
    }

    /** DisassociateResolverEndpointIpAddress */
    method Disassociate(id: Option<IpId>) returns (ok: bool, count: int)
      requires Valid()
      modifies this
      ensures Valid()
      ensures log == old(log) + [Event(Detach(id), ok, attached)]
      ensures Takes(Step, old(attached), log[|log| - 1])
      ensures calls == old(calls) + 1
      ensures ok == (!fails(old(calls)) && id.Some? && id.value in old(attached))
      ensures ok ==> count == |attached|
    {
      ok := !fails(calls) && id.Some? && id.value in attached;
      calls := calls + 1;
      if ok {
        attached := attached - {id.value};
        Relayout();
      }
      count := |attached|;
      log := log + [Event(Detach(id), ok, attached)];
    }

    /** The next listing may come in any order; where its pages end is as arbitrary. */
    method Relayout()
      modifies this`layout
      ensures Valid()
    {
      var order := RangeOrder(attached.Keys);
      var cut :| 0 <= cut <= |order|;
      layout := [order[..cut], order[cut..]];
      assert Flatten(layout, 1) == Flatten(layout, 0) + order[..cut] == order[..cut];
      assert Flatten(layout, 2) == order;
    }
  }
}
