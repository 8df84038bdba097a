/** The resolver endpoint resource, as far as its reconciliation reads or writes it. */
module EndpointTypes {
  import opened Wrappers

  datatype Reference = Reference(name: Option<string>, ns: Option<string>)

  datatype ReferenceWrapper = ReferenceWrapper(from: Option<Reference>)

  datatype IPAddressRequest = IPAddressRequest(
    ip: Option<string>,
    ipv6: Option<string>,
    subnetID: Option<string>,
    subnetRef: Option<ReferenceWrapper>)

  datatype IPAddressResponse = IPAddressResponse(
    creationTime: Option<string>,
    ip: Option<string>,
    ipID: Option<string>,
    ipv6: Option<string>,
    modificationTime: Option<string>,
    status: Option<string>,
    statusMessage: Option<string>,
    subnetID: Option<string>)

  /** The custom resource. A nil slice and an empty one differ only for the security
      group IDs, where a round trip depends on it. */
  class Endpoint {
    var ipAddresses: seq<IPAddressRequest>                 // Spec.IPAddresses
    var securityGroupIDs: Option<seq<string>>              // Spec.SecurityGroupIDs
    var securityGroupRefs: seq<Option<ReferenceWrapper>>   // Spec.SecurityGroupRefs
    var ipStatuses: seq<IPAddressResponse>                 // Status.IPAddresses
    var ipAddressCount: Option<int>                        // Status.IPAddressCount

    constructor (ipAddresses: seq<IPAddressRequest>, securityGroupIDs: Option<seq<string>>,
                 securityGroupRefs: seq<Option<ReferenceWrapper>>,
                 ipStatuses: seq<IPAddressResponse>, ipAddressCount: Option<int>)
      ensures this.ipAddresses == ipAddresses
      ensures this.securityGroupIDs == securityGroupIDs
      ensures this.securityGroupRefs == securityGroupRefs
      ensures this.ipStatuses == ipStatuses
      ensures this.ipAddressCount == ipAddressCount
    {
      this.ipAddresses := ipAddresses;
      this.securityGroupIDs := securityGroupIDs;
      this.securityGroupRefs := securityGroupRefs;
      this.ipStatuses := ipStatuses;
      this.ipAddressCount := ipAddressCount;
    }

    method DeepCopy() returns (out: Endpoint)
      ensures fresh(out)
      ensures out.ipAddresses == ipAddresses && out.ipStatuses == ipStatuses
      ensures out.securityGroupIDs == securityGroupIDs && out.securityGroupRefs == securityGroupRefs
      ensures out.ipAddressCount == ipAddressCount
    {
      out := new Endpoint(ipAddresses, securityGroupIDs, securityGroupRefs, ipStatuses, ipAddressCount);
    }
  }
}
