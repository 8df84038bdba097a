/** pkg/resource/resolver_endpoint/references.go: references to subnets and security groups are
    replaced by the IDs of what they refer to, and the IDs cleared again afterwards. */
module References {
  import opened Wrappers
  import opened EndpointTypes
  import opened Conditions
  import EndpointHook

  datatype RefError =
    | NameMissing
    | CrossNamespace
    | NotFound
    | TargetTerminal
    | TargetNotSynced
    | TargetFieldMissing
    | ReferenceAndID
    | ReferenceOrIDRequired

  datatype Result<+T> = Ok(value: T) | Err(error: RefError)

  /** A referenced resource: its conditions and the ID in its status. */
  datatype Target = Target(conditions: seq<ConditionValue>, id: Option<string>)

  /** What the cluster answers: the namespace a reference resolves to, if that is allowed, and the
      subnet or the security group of a name in a namespace. */
  datatype Cluster = Cluster(
    resolveNamespace: (Option<string>, string) -> Option<string>,
    subnets: (string, string) -> Option<Target>,
    groups: (string, string) -> Option<Target>)

  // ----- one reference -----

  ghost predicate Shows(t: Target, kind: ConditionType) {
    exists i :: 0 <= i < |t.conditions| && t.conditions[i].kind == kind && t.conditions[i].status == IsTrue
  }

  /** The object exists, is synced and not in a terminal state, and has an ID. */
  ghost predicate Usable(t: Target) {
    !Shows(t, Conditions.Terminal) && Shows(t, ResourceSynced) && t.id.Some?
  }

  /** Which error, if any, a lookup ends in: the checks are made in this order. */
  ghost function Looked(found: Option<Target>): Result<string> {
    if found.None? then Err(NotFound)
    else if Shows(found.value, Conditions.Terminal) then Err(TargetTerminal)
    else if !Shows(found.value, ResourceSynced) then Err(TargetNotSynced)
    else if found.value.id.None? then Err(TargetFieldMissing)
    else Ok(found.value.id.value)
  }

  lemma {:induction false} ShowsByConditions(t: Target, kind: ConditionType)
    ensures Shows(t, kind) <==> exists c :: c in t.conditions && c.kind == kind && c.status == IsTrue
  {
    if c :| c in t.conditions && c.kind == kind && c.status == IsTrue {
      var i :| 0 <= i < |t.conditions| && t.conditions[i] == c;
    }
  }

  /** By the conditions themselves: a True Terminal condition comes first, then a missing True
      ResourceSynced condition, then a missing ID. */
  lemma {:induction false} LookedByConditions(found: Option<Target>)
    ensures Looked(found) == Err(NotFound) <==> found == None
    ensures found.Some? ==>
      var terminal := exists c :: c in found.value.conditions && c.kind == Conditions.Terminal && c.status == IsTrue;
      var synced := exists c :: c in found.value.conditions && c.kind == ResourceSynced && c.status == IsTrue;
      && (Looked(found) == Err(TargetTerminal) <==> terminal)
      && (Looked(found) == Err(TargetNotSynced) <==> !terminal && !synced)
      && (Looked(found) == Err(TargetFieldMissing) <==> !terminal && synced && found.value.id == None)
      && (Looked(found).Ok? <==> !terminal && synced && found.value.id.Some?)
      && (Looked(found).Ok? ==> Some(Looked(found).value) == found.value.id)
  {
    if found.Some? {
      ShowsByConditions(found.value, Conditions.Terminal);
      ShowsByConditions(found.value, ResourceSynced);
    }
  }

  /** getReferencedResourceState_Subnet and _SecurityGroup, which are the same but for the type. */
  method GetReferencedResourceState(get: (string, string) -> Option<Target>, name: string, namespace: string)
    returns (r: Result<string>)
    ensures r.Ok? <==> get(namespace, name).Some? && Usable(get(namespace, name).value)
    ensures r.Ok? ==> Some(r.value) == get(namespace, name).value.id
    ensures r == Looked(get(namespace, name))
  {
    var found := get(namespace, name);
    if found.None? {
      return Err(NotFound);
    }
    var obj := found.value;
    for i := 0 to |obj.conditions|
      invariant forall j :: 0 <= j < i ==>
        obj.conditions[j].kind != Conditions.Terminal || obj.conditions[j].status != IsTrue
    {
      var cond := obj.conditions[i];
      if cond.kind == Conditions.Terminal && cond.status == IsTrue {
        return Err(TargetTerminal);
      }
    }
    var refResourceSynced := false;
    for i := 0 to |obj.conditions|
      invariant refResourceSynced <==>
        exists j :: 0 <= j < i && obj.conditions[j].kind == ResourceSynced && obj.conditions[j].status == IsTrue
    {
      var cond := obj.conditions[i];
      if cond.kind == ResourceSynced && cond.status == IsTrue {
        refResourceSynced := true;
      }
    }
    if !refResourceSynced {
      return Err(TargetNotSynced);
    }
    if obj.id.None? {
      return Err(TargetFieldMissing);
    }
    return Ok(obj.id.value);
  }

  /** What a reference with a From resolves to. */
  ghost function Resolved(c: Cluster, get: (string, string) -> Option<Target>, ref: Reference): Result<string> {
    if ref.name.None? || ref.name.value == "" then Err(NameMissing)
    else
      var namespace := c.resolveNamespace(ref.ns, ref.name.value);
      if namespace.None? then Err(CrossNamespace) else Looked(get(namespace.value, ref.name.value))
  }

  method ResolveOne(c: Cluster, get: (string, string) -> Option<Target>, arr: Reference) returns (r: Result<string>)
    ensures r == Resolved(c, get, arr)
  {
    if arr.name.None? || arr.name.value == "" {
      return Err(NameMissing);
    }
    var namespace := c.resolveNamespace(arr.ns, arr.name.value);
    if namespace.None? {
      return Err(CrossNamespace);
    }
    r := GetReferencedResourceState(get, arr.name.value, namespace.value);
  }

  /** A reference resolves exactly when it has a name, its namespace is allowed and there it leads to a
      usable target, and then to the ID of that target. */
  lemma {:induction false} ResolvedTarget(c: Cluster, get: (string, string) -> Option<Target>, ref: Reference)
    ensures Resolved(c, get, ref).Ok? <==>
      && ref.name.Some? && ref.name.value != "" && c.resolveNamespace(ref.ns, ref.name.value).Some?
      && var found := get(c.resolveNamespace(ref.ns, ref.name.value).value, ref.name.value);
         found.Some? && Usable(found.value)
    ensures Resolved(c, get, ref).Ok? ==>
      get(c.resolveNamespace(ref.ns, ref.name.value).value, ref.name.value).value.id
          == Some(Resolved(c, get, ref).value)
    ensures Resolved(c, get, ref) == Err(NameMissing) <==> ref.name == None || ref.name == Some("")
    ensures Resolved(c, get, ref) == Err(CrossNamespace) <==>
      ref.name.Some? && ref.name.value != "" && c.resolveNamespace(ref.ns, ref.name.value) == None
  {
  }

  // ----- the subnets of the addresses -----

  ghost predicate HasFrom(w: Option<ReferenceWrapper>) {
    w.Some? && w.value.from.Some?
  }

  ghost predicate SubnetFails(c: Cluster, a: IPAddressRequest) {
    HasFrom(a.subnetRef) && Resolved(c, c.subnets, a.subnetRef.value.from.value).Err?
  }

  ghost function SubnetError(c: Cluster, a: IPAddressRequest): RefError
    requires SubnetFails(c, a)
  {
    Resolved(c, c.subnets, a.subnetRef.value.from.value).error
  }

  /** An address after its reference has been resolved. */
  ghost function WithSubnet(c: Cluster, a: IPAddressRequest): IPAddressRequest
    requires !SubnetFails(c, a)
  {
    if HasFrom(a.subnetRef) then a.(subnetID := Some(Resolved(c, c.subnets, a.subnetRef.value.from.value).value)) else a
  }

  /** `now` has the references of the first `n` addresses resolved, the others untouched. */
  ghost predicate SubnetsResolvedTo(c: Cluster, before: seq<IPAddressRequest>, now: seq<IPAddressRequest>, n: nat) {
    && |now| == |before| && n <= |before|
    && (forall i :: 0 <= i < n ==> !SubnetFails(c, before[i]) && now[i] == WithSubnet(c, before[i]))
    && (forall i :: n <= i < |before| ==> now[i] == before[i])
  }

  /** Stops at the first reference that does not resolve; those before it stay resolved. */
  method ResolveReferenceForSubnetIDs(c: Cluster, ko: Endpoint)
    returns (hasReferences: bool, err: Option<RefError>, ghost n: nat)
    modifies ko`ipAddresses
    ensures SubnetsResolvedTo(c, old(ko.ipAddresses), ko.ipAddresses, n)
    ensures err.None? ==> n == |ko.ipAddresses|
    ensures err.Some? ==> n < |ko.ipAddresses| && SubnetFails(c, old(ko.ipAddresses)[n])
    ensures err.Some? ==> err.value == SubnetError(c, old(ko.ipAddresses)[n])
    ensures hasReferences <==>
      exists i :: 0 <= i < |ko.ipAddresses| && (err.Some? ==> i <= n) && HasFrom(old(ko.ipAddresses)[i].subnetRef)
  {
    ghost var before := ko.ipAddresses;
    hasReferences, err := false, None;
    for i := 0 to |ko.ipAddresses|
      invariant |ko.ipAddresses| == |before|
      invariant SubnetsResolvedTo(c, before, ko.ipAddresses, i)
      invariant hasReferences <==> exists j :: 0 <= j < i && HasFrom(before[j].subnetRef)
    {
      var iter := ko.ipAddresses[i];
      if iter.subnetRef.Some? && iter.subnetRef.value.from.Some? {
        hasReferences := true;
        var id := ResolveOne(c, c.subnets, iter.subnetRef.value.from.value);
        if id.Err? {
          return hasReferences, Some(id.error), i;
        }
        ko.ipAddresses := ko.ipAddresses[i := iter.(subnetID := Some(id.value))];
      }
    }
    n := |ko.ipAddresses|;
  }

  // ----- the security groups -----

  ghost predicate GroupFails(c: Cluster, w: Option<ReferenceWrapper>) {
    HasFrom(w) && Resolved(c, c.groups, w.value.from.value).Err?
  }

  ghost function GroupError(c: Cluster, w: Option<ReferenceWrapper>): RefError
    requires GroupFails(c, w)
  {
    Resolved(c, c.groups, w.value.from.value).error
  }

  /** The IDs of the references that have a From, in order. */
  ghost function GroupIDs(c: Cluster, refs: seq<Option<ReferenceWrapper>>): seq<string>
    requires forall i :: 0 <= i < |refs| ==> !GroupFails(c, refs[i])
  {
    if refs == [] then []
    else
      var w := refs[|refs| - 1];
      assert !GroupFails(c, w);
      GroupIDs(c, refs[..|refs| - 1]) + if HasFrom(w) then [Resolved(c, c.groups, w.value.from.value).value] else []
  }

  ghost function Ids(ids: Option<seq<string>>): seq<string> {
    if ids.Some? then ids.value else []
  }

  /** Appends to the IDs there are, making a list only when there is something to append. */
  ghost predicate GroupsResolvedTo(c: Cluster, refs: seq<Option<ReferenceWrapper>>,
                                   before: Option<seq<string>>, now: Option<seq<string>>, n: nat) {
    && n <= |refs|
    && (forall i :: 0 <= i < n ==> !GroupFails(c, refs[i]))
    && now == if GroupIDs(c, refs[..n]) == [] then before else Some(Ids(before) + GroupIDs(c, refs[..n]))
  }

  method ResolveReferenceForSecurityGroupIDs(c: Cluster, ko: Endpoint)
    returns (hasReferences: bool, err: Option<RefError>, ghost n: nat)
    modifies ko`securityGroupIDs
    ensures GroupsResolvedTo(c, ko.securityGroupRefs, old(ko.securityGroupIDs), ko.securityGroupIDs, n)
    ensures err.None? ==> n == |ko.securityGroupRefs|
    ensures err.Some? ==> n < |ko.securityGroupRefs| && GroupFails(c, ko.securityGroupRefs[n])
    ensures err.Some? ==> err.value == GroupError(c, ko.securityGroupRefs[n])
    ensures hasReferences <==>
      exists i :: 0 <= i < |ko.securityGroupRefs| && (err.Some? ==> i <= n) && HasFrom(ko.securityGroupRefs[i])
  {
    ghost var before := ko.securityGroupIDs;
    hasReferences, err := false, None;
    for i := 0 to |ko.securityGroupRefs|
      invariant GroupsResolvedTo(c, ko.securityGroupRefs, before, ko.securityGroupIDs, i)
      invariant hasReferences <==> exists j :: 0 <= j < i && HasFrom(ko.securityGroupRefs[j])
    {
      var iter := ko.securityGroupRefs[i];
      assert ko.securityGroupRefs[..i + 1][..i] == ko.securityGroupRefs[..i];
      if iter.Some? && iter.value.from.Some? {
        hasReferences := true;
        var id := ResolveOne(c, c.groups, iter.value.from.value);
        if id.Err? {
          return hasReferences, Some(id.error), i;
        }
        if ko.securityGroupIDs.None? {
          ko.securityGroupIDs := Some([]);
        }
        assert !GroupFails(c, ko.securityGroupRefs[i]);
        assert ko.securityGroupIDs.value == Ids(before) + GroupIDs(c, ko.securityGroupRefs[..i]);
        assert Ids(before) + GroupIDs(c, ko.securityGroupRefs[..i]) + [id.value]
            == Ids(before) + (GroupIDs(c, ko.securityGroupRefs[..i]) + [id.value]);
        ko.securityGroupIDs := Some(ko.securityGroupIDs.value + [id.value]);
      } else {
        assert GroupIDs(c, ko.securityGroupRefs[..i]) + [] == GroupIDs(c, ko.securityGroupRefs[..i]);
      }
    }
    n := |ko.securityGroupRefs|;
  }

  // ----- the whole resource -----

  /** An address with both an ID and a reference. */
  ghost predicate BothForSubnet(ips: seq<IPAddressRequest>) {
    exists i :: 0 <= i < |ips| && ips[i].subnetRef.Some? && ips[i].subnetID.Some?
  }

  /** An address comes with an ID and a reference, or there are both IDs and references of groups. */
  ghost predicate GivenBothWays(ips: seq<IPAddressRequest>, ids: Option<seq<string>>,
                                refs: seq<Option<ReferenceWrapper>>) {
    || (exists a :: a in ips && a.subnetRef.Some? && a.subnetID.Some?)
    || (refs != [] && ids.Some? && ids.value != [])
  }

  ghost predicate BothForGroups(ids: Option<seq<string>>, refs: seq<Option<ReferenceWrapper>>) {
    |refs| > 0 && |Ids(ids)| > 0
  }

  ghost function Verdict(ips: seq<IPAddressRequest>, ids: Option<seq<string>>,
                         refs: seq<Option<ReferenceWrapper>>): Option<RefError> {
    if BothForSubnet(ips) || BothForGroups(ids, refs) then Some(ReferenceAndID)
    else if |refs| == 0 && |Ids(ids)| == 0 then Some(ReferenceOrIDRequired)
    else None
  }

  /** The verdict by the fields: what it is when something is given both ways, when neither of the two
      ways to give the groups is used, and otherwise. */
  lemma {:induction false} VerdictOf(ips: seq<IPAddressRequest>, ids: Option<seq<string>>,
                                     refs: seq<Option<ReferenceWrapper>>)
    ensures Verdict(ips, ids, refs) == Some(ReferenceAndID) <==> GivenBothWays(ips, ids, refs)
    ensures Verdict(ips, ids, refs) == Some(ReferenceOrIDRequired) <==>
      !GivenBothWays(ips, ids, refs) && refs == [] && (ids.None? || ids.value == [])
    ensures Verdict(ips, ids, refs).Some? ==> Verdict(ips, ids, refs).value in {ReferenceAndID, ReferenceOrIDRequired}
  {
    if a :| a in ips && a.subnetRef.Some? && a.subnetID.Some? {
      var i :| 0 <= i < |ips| && ips[i] == a;
    }
  }

  method ValidateReferenceFields(ko: Endpoint) returns (err: Option<RefError>)
    ensures err == Verdict(ko.ipAddresses, ko.securityGroupIDs, ko.securityGroupRefs)
    ensures err == Some(ReferenceAndID) <==> GivenBothWays(ko.ipAddresses, ko.securityGroupIDs, ko.securityGroupRefs)
    ensures err == Some(ReferenceOrIDRequired) <==>
      && !GivenBothWays(ko.ipAddresses, ko.securityGroupIDs, ko.securityGroupRefs)
      && ko.securityGroupRefs == [] && (ko.securityGroupIDs.None? || ko.securityGroupIDs.value == [])
    ensures err.Some? ==> err.value in {ReferenceAndID, ReferenceOrIDRequired}
  {
    VerdictOf(ko.ipAddresses, ko.securityGroupIDs, ko.securityGroupRefs);
    for i := 0 to |ko.ipAddresses|
      invariant forall j :: 0 <= j < i ==> ko.ipAddresses[j].subnetRef.None? || ko.ipAddresses[j].subnetID.None?
    {
      if ko.ipAddresses[i].subnetRef.Some? && ko.ipAddresses[i].subnetID.Some? {
        return Some(ReferenceAndID);
      }
    }
    var ids := if ko.securityGroupIDs.Some? then ko.securityGroupIDs.value else [];
    if |ko.securityGroupRefs| > 0 && |ids| > 0 {
      return Some(ReferenceAndID);
    }
    if |ko.securityGroupRefs| == 0 && |ids| == 0 {
      return Some(ReferenceOrIDRequired);
    }
    return None;
  }

  /** What resolving leaves behind, whether it went through or stopped: `m` addresses and `n`
      groups were resolved. */
  ghost predicate ResolvedTo(c: Cluster, ips: seq<IPAddressRequest>, ids: Option<seq<string>>,
                             refs: seq<Option<ReferenceWrapper>>, ips': seq<IPAddressRequest>,
                             ids': Option<seq<string>>, m: nat, n: nat) {
    && SubnetsResolvedTo(c, ips, ips', m)
    && GroupsResolvedTo(c, refs, ids, ids', n)
    && (m < |ips| ==> n == 0 && SubnetFails(c, ips[m]))
    && (m == |ips| && n < |refs| ==> GroupFails(c, refs[n]))
  }

  /** The error of the first reference that fails, or else the verdict of the validation. */
  ghost function Outcome(c: Cluster, ips: seq<IPAddressRequest>, ids: Option<seq<string>>,
                         refs: seq<Option<ReferenceWrapper>>, ips': seq<IPAddressRequest>,
                         ids': Option<seq<string>>, m: nat, n: nat): Option<RefError>
    requires ResolvedTo(c, ips, ids, refs, ips', ids', m, n)
  {
    if m < |ips| then Some(SubnetError(c, ips[m]))
    else if n < |refs| then Some(GroupError(c, refs[n]))
    else Verdict(ips, ids, refs)
  }

  ghost predicate SomeReferenceFails(c: Cluster, ips: seq<IPAddressRequest>, refs: seq<Option<ReferenceWrapper>>) {
    (exists i :: 0 <= i < |ips| && SubnetFails(c, ips[i])) || (exists i :: 0 <= i < |refs| && GroupFails(c, refs[i]))
  }

  /** A failed validation does not keep it from resolving; its error is only reported at the end. */
  method ResolveReferences(c: Cluster, ko: Endpoint)
    returns (hasReferences: bool, err: Option<RefError>, ghost m: nat, ghost n: nat)
    modifies ko`ipAddresses, ko`securityGroupIDs
    ensures ResolvedTo(c, old(ko.ipAddresses), old(ko.securityGroupIDs), ko.securityGroupRefs,
                       ko.ipAddresses, ko.securityGroupIDs, m, n)
    ensures err == Outcome(c, old(ko.ipAddresses), old(ko.securityGroupIDs), ko.securityGroupRefs,
                           ko.ipAddresses, ko.securityGroupIDs, m, n)
    ensures !SomeReferenceFails(c, old(ko.ipAddresses), ko.securityGroupRefs) ==>
      && (err == Some(ReferenceAndID) <==>
            GivenBothWays(old(ko.ipAddresses), old(ko.securityGroupIDs), ko.securityGroupRefs))
      && (err == Some(ReferenceOrIDRequired) <==>
            && !GivenBothWays(old(ko.ipAddresses), old(ko.securityGroupIDs), ko.securityGroupRefs)
            && ko.securityGroupRefs == [] && Ids(old(ko.securityGroupIDs)) == [])
      && (err.Some? ==> err.value in {ReferenceAndID, ReferenceOrIDRequired})
    ensures SomeReferenceFails(c, old(ko.ipAddresses), ko.securityGroupRefs) ==> err.Some?
    ensures hasReferences <==>
      || (exists i :: 0 <= i < |ko.ipAddresses| && HasFrom(old(ko.ipAddresses)[i].subnetRef))
      || (exists i :: 0 <= i < |ko.securityGroupRefs| && HasFrom(ko.securityGroupRefs[i]))
  {
    var invalid := ValidateReferenceFields(ko);
    var has;
    hasReferences, err, m := ResolveReferenceForSubnetIDs(c, ko);
    n := 0;
    if err.Some? {
      return;
    }
    has, err, n := ResolveReferenceForSecurityGroupIDs(c, ko);
    hasReferences := hasReferences || has;
    if err.Some? {
      return;
    }
    err := invalid;
  }

  ghost function ClearedIPs(ips: seq<IPAddressRequest>): (r: seq<IPAddressRequest>)
    ensures |r| == |ips|
    ensures forall i :: 0 <= i < |ips| ==> r[i] == if ips[i].subnetRef.Some? then ips[i].(subnetID := None) else ips[i]
  {
    seq(|ips|, i requires 0 <= i < |ips| => if ips[i].subnetRef.Some? then ips[i].(subnetID := None) else ips[i])
  }

  ghost function ClearedIDs(ids: Option<seq<string>>, refs: seq<Option<ReferenceWrapper>>): Option<seq<string>> {
    if |refs| > 0 then None else ids
  }

  /** A copy in which every ID that has a reference is gone. */
  method ClearResolvedReferences(res: Endpoint) returns (ko: Endpoint)
    ensures fresh(ko)
    ensures ko.ipAddresses == ClearedIPs(res.ipAddresses)
    ensures forall i :: 0 <= i < |ko.ipAddresses| ==>
      var was := res.ipAddresses[i];
      ko.ipAddresses[i] == was.(subnetID := if was.subnetRef.Some? then None else was.subnetID)
    ensures ko.securityGroupIDs == if res.securityGroupRefs != [] then None else res.securityGroupIDs
    ensures ko.securityGroupIDs == ClearedIDs(res.securityGroupIDs, res.securityGroupRefs)
    ensures ko.securityGroupRefs == res.securityGroupRefs
    ensures ko.ipStatuses == res.ipStatuses && ko.ipAddressCount == res.ipAddressCount
  {
    ko := res.DeepCopy();
    for i := 0 to |ko.ipAddresses|
      invariant |ko.ipAddresses| == |res.ipAddresses|
      invariant ko.ipAddresses[..i] == ClearedIPs(res.ipAddresses)[..i]
      invariant ko.ipAddresses[i..] == res.ipAddresses[i..]
      invariant fresh(ko) && ko.securityGroupIDs == res.securityGroupIDs
      invariant ko.securityGroupRefs == res.securityGroupRefs
      invariant ko.ipStatuses == res.ipStatuses && ko.ipAddressCount == res.ipAddressCount
    {
      assert ko.ipAddresses[i] == ko.ipAddresses[i..][0] == res.ipAddresses[i..][0] == res.ipAddresses[i];
      var iter := ko.ipAddresses[i];
      if iter.subnetRef.Some? {
        ko.ipAddresses := ko.ipAddresses[i := iter.(subnetID := None)];
      }
    }
    if |ko.securityGroupRefs| > 0 {
      ko.securityGroupIDs := None;
    }
  }

  // ----- round trip -----

  /** Clearing after resolving gives back the addresses, whatever the lookups answered and wherever
      they stopped, exactly when no address came with both an ID and a reference. */
  lemma {:induction false} SubnetsRoundTripIff(c: Cluster, ips: seq<IPAddressRequest>, ips': seq<IPAddressRequest>,
                                               m: nat)
    requires SubnetsResolvedTo(c, ips, ips', m)
    ensures ClearedIPs(ips') == ips <==> !BothForSubnet(ips)
  {
    var cleared := ClearedIPs(ips');
    forall i | 0 <= i < |ips|
      ensures cleared[i] == if ips[i].subnetRef.Some? then ips[i].(subnetID := None) else ips[i]
    {
      assert ips'[i].subnetRef == ips[i].subnetRef;
    }
    if BothForSubnet(ips) {
      var i :| 0 <= i < |ips| && ips[i].subnetRef.Some? && ips[i].subnetID.Some?;
      assert cleared[i] != ips[i];
    }
  }

  /** It gives back the security group IDs, nil and empty being the same, exactly when they did not
      come with references. */
  lemma {:induction false} GroupsRoundTripIff(c: Cluster, refs: seq<Option<ReferenceWrapper>>,
                                              ids: Option<seq<string>>, ids': Option<seq<string>>, n: nat)
    requires GroupsResolvedTo(c, refs, ids, ids', n)
    ensures Ids(ClearedIDs(ids', refs)) == Ids(ids) <==> !BothForGroups(ids, refs)
  {
  }

  /** Together: exactly the resources that validation does not refuse for giving both come back. */
  lemma {:induction false} RoundTripIff(c: Cluster, ips: seq<IPAddressRequest>, ids: Option<seq<string>>,
                                        refs: seq<Option<ReferenceWrapper>>, ips': seq<IPAddressRequest>,
                                        ids': Option<seq<string>>, m: nat, n: nat)
    requires ResolvedTo(c, ips, ids, refs, ips', ids', m, n)
    ensures ClearedIPs(ips') == ips && Ids(ClearedIDs(ids', refs)) == Ids(ids) <==>
      !BothForSubnet(ips) && !BothForGroups(ids, refs)
  {
    SubnetsRoundTripIff(c, ips, ips', m);
    GroupsRoundTripIff(c, refs, ids, ids', n);
  }

  /** A single address that gives both is enough for the ID to be lost: validation fails, but it is
      resolved and then cleared all the same. */
  lemma {:induction false} RoundTripLoses(c: Cluster, ips': seq<IPAddressRequest>, ids': Option<seq<string>>,
                                          m: nat, n: nat)
    requires ResolvedTo(c, [IPAddressRequest(None, None, Some("a"), Some(ReferenceWrapper(None)))], None, [],
                        ips', ids', m, n)
    ensures ClearedIPs(ips') != [IPAddressRequest(None, None, Some("a"), Some(ReferenceWrapper(None)))]
  {
    var ips := [IPAddressRequest(None, None, Some("a"), Some(ReferenceWrapper(None)))];
    assert ips[0].subnetRef.Some? && ips[0].subnetID.Some?;
    SubnetsRoundTripIff(c, ips, ips', m);
  }

  /** `id` is that of the usable target this reference leads to. */
  ghost predicate From(c: Cluster, get: (string, string) -> Option<Target>, ref: Reference, id: Option<string>) {
    && ref.name.Some? && c.resolveNamespace(ref.ns, ref.name.value).Some?
    && var found := get(c.resolveNamespace(ref.ns, ref.name.value).value, ref.name.value);
       found.Some? && Usable(found.value) && found.value.id == id
  }

  /** How many of the references have a From. */
  ghost function WithFrom(refs: seq<Option<ReferenceWrapper>>): nat {
    if refs == [] then 0
    else WithFrom(refs[..|refs| - 1]) + if HasFrom(refs[|refs| - 1]) then 1 else 0
  }

  lemma {:induction false} GroupIDCount(c: Cluster, refs: seq<Option<ReferenceWrapper>>)
    requires forall i :: 0 <= i < |refs| ==> !GroupFails(c, refs[i])
    ensures |GroupIDs(c, refs)| == WithFrom(refs)
  {
    if refs != [] {
      GroupIDCount(c, refs[..|refs| - 1]);
    }
  }

  /** The IDs stand in the order of their references. */
  lemma {:induction false} GroupIDPosition(c: Cluster, refs: seq<Option<ReferenceWrapper>>, i: nat)
    requires forall i :: 0 <= i < |refs| ==> !GroupFails(c, refs[i])
    requires i < |refs| && HasFrom(refs[i])
    ensures WithFrom(refs[..i]) < |GroupIDs(c, refs)|
    ensures GroupIDs(c, refs)[WithFrom(refs[..i])] == Resolved(c, c.groups, refs[i].value.from.value).value
  {
    var init := refs[..|refs| - 1];
    GroupIDCount(c, init);
    if i < |refs| - 1 {
      GroupIDPosition(c, init, i);
      assert init[..i] == refs[..i];
    } else {
      assert init == refs[..i];
    }
  }
  /** No error means that the resource passed validation and that every reference with a From was
      replaced, in order, by the ID of an existing, synced target that is not terminal. */
  lemma {:induction false} NoErrorMeansResolved(c: Cluster, ips: seq<IPAddressRequest>, ids: Option<seq<string>>,
                                                refs: seq<Option<ReferenceWrapper>>, ips': seq<IPAddressRequest>,
                                                ids': Option<seq<string>>, m: nat, n: nat, i: nat)
    requires ResolvedTo(c, ips, ids, refs, ips', ids', m, n)
    requires Outcome(c, ips, ids, refs, ips', ids', m, n) == None
    ensures Verdict(ips, ids, refs) == None
    ensures i < |ips| && HasFrom(ips[i].subnetRef) ==>
      From(c, c.subnets, ips[i].subnetRef.value.from.value, ips'[i].subnetID)
    ensures i < |ips| && !HasFrom(ips[i].subnetRef) ==> ips'[i] == ips[i]
    ensures Ids(ids') == Ids(ids) + GroupIDs(c, refs[..n]) && refs[..n] == refs
    ensures |refs| > 0 ==> Ids(ids) == []
    ensures |refs| > 0 || |Ids(ids)| > 0
    ensures !GivenBothWays(ips, ids, refs)
    ensures |GroupIDs(c, refs)| == WithFrom(refs)
    ensures i < |refs| && HasFrom(refs[i]) ==>
      && WithFrom(refs[..i]) < |Ids(ids')|
      && From(c, c.groups, refs[i].value.from.value, Some(Ids(ids')[WithFrom(refs[..i])]))
  {
    assert refs[..n] == refs;
    if i < |ips| && HasFrom(ips[i].subnetRef) {
      ResolvedTarget(c, c.subnets, ips[i].subnetRef.value.from.value);
    }
    if i < |refs| && HasFrom(refs[i]) {
      ResolvedTarget(c, c.groups, refs[i].value.from.value);
      GroupIDPosition(c, refs, i);
    }
    VerdictOf(ips, ids, refs);
    GroupIDCount(c, refs);
  }

  /** The comparison of the addresses dereferences every subnet ID. After resolving they are all there
      exactly when each address came with an ID or with a reference that has a From. */
  lemma {:induction false} SubnetsGivenIff(c: Cluster, ips: seq<IPAddressRequest>, ips': seq<IPAddressRequest>)
    requires SubnetsResolvedTo(c, ips, ips', |ips|)
    ensures EndpointHook.SubnetsGiven(ips') <==>
      forall i :: 0 <= i < |ips| ==> ips[i].subnetID.Some? || HasFrom(ips[i].subnetRef)
  {
    forall i | 0 <= i < |ips| ensures ips'[i].subnetID.Some? <==> ips[i].subnetID.Some? || HasFrom(ips[i].subnetRef) {
    }
    if EndpointHook.SubnetsGiven(ips') {
      assert forall i :: 0 <= i < |ips| ==> ips'[i] in ips';
    }
  }

  // ----- resolving again -----

  /** How far resolving gets depends only on the references, which clearing leaves alone. */
  lemma {:induction false} SameReach(c: Cluster, ips: seq<IPAddressRequest>, ids: Option<seq<string>>,
                                     refs: seq<Option<ReferenceWrapper>>, p: seq<IPAddressRequest>,
                                     q: Option<seq<string>>, m: nat, n: nat, ids2: Option<seq<string>>,
                                     p2: seq<IPAddressRequest>, q2: Option<seq<string>>, m2: nat, n2: nat)
    requires ResolvedTo(c, ips, ids, refs, p, q, m, n)
    requires ResolvedTo(c, ClearedIPs(p), ids2, refs, p2, q2, m2, n2)
    ensures m == m2 && n == n2
  {
    assert forall i :: 0 <= i < |ips| ==> ClearedIPs(p)[i].subnetRef == ips[i].subnetRef;
    assert forall i :: 0 <= i < |ips| ==> (SubnetFails(c, ClearedIPs(p)[i]) <==> SubnetFails(c, ips[i]));
  }

  /** The address has a reference that is resolved: no reference up to its own fails. */
  ghost predicate Reached(c: Cluster, ips: seq<IPAddressRequest>, i: nat)
    requires i < |ips|
  {
    HasFrom(ips[i].subnetRef) && forall j :: 0 <= j <= i ==> !SubnetFails(c, ips[j])
  }

  /** Every ID that is given besides a reference is overwritten by what the reference resolves to. */
  ghost predicate IDsOverwritten(c: Cluster, ips: seq<IPAddressRequest>) {
    forall i :: 0 <= i < |ips| && ips[i].subnetRef.Some? && ips[i].subnetID.Some? ==> Reached(c, ips, i)
  }

  lemma {:induction false} SubnetsAgainIff(c: Cluster, ips: seq<IPAddressRequest>, p: seq<IPAddressRequest>,
                                           p2: seq<IPAddressRequest>, m: nat)
    requires SubnetsResolvedTo(c, ips, p, m) && SubnetsResolvedTo(c, ClearedIPs(p), p2, m)
    requires m < |ips| ==> SubnetFails(c, ips[m])
    ensures p2 == p <==> IDsOverwritten(c, ips)
  {
    forall i | 0 <= i < |ips|
      ensures p2[i] == p[i] <==> (ips[i].subnetRef.Some? && ips[i].subnetID.Some? ==> Reached(c, ips, i))
    {
      assert Reached(c, ips, i) <==> HasFrom(ips[i].subnetRef) && i < m;
      assert ClearedIPs(p)[i].subnetRef == p[i].subnetRef == ips[i].subnetRef;
    }
  }

  lemma {:induction false} SameErrorIff(c: Cluster, ips: seq<IPAddressRequest>, ids: Option<seq<string>>,
                                        refs: seq<Option<ReferenceWrapper>>, p: seq<IPAddressRequest>,
                                        q: Option<seq<string>>, m: nat, n: nat, p2: seq<IPAddressRequest>,
                                        q2: Option<seq<string>>)
    requires ResolvedTo(c, ips, ids, refs, p, q, m, n)
    requires ResolvedTo(c, ClearedIPs(p), ClearedIDs(q, refs), refs, p2, q2, m, n)
    ensures SomeReferenceFails(c, ips, refs) || !(BothForSubnet(ips) || BothForGroups(ids, refs)) <==>
      Outcome(c, ips, ids, refs, p, q, m, n) == Outcome(c, ClearedIPs(p), ClearedIDs(q, refs), refs, p2, q2, m, n)
  {
    assert SomeReferenceFails(c, ips, refs) <==> m < |ips| || n < |refs|;
    if m < |ips| {
      assert ClearedIPs(p)[m].subnetRef == ips[m].subnetRef;
    } else if n == |refs| {
      assert !BothForSubnet(ClearedIPs(p)) && !BothForGroups(ClearedIDs(q, refs), refs);
    }
  }

  /** Resolving, clearing and resolving again, with the same answers. The addresses come out the same
      exactly when every ID given besides a reference was overwritten at first, the security groups
      exactly when they were not given both ways, and the error exactly when a reference fails or
      nothing was given both ways. */
  method ResolveClearResolve(c: Cluster, ko: Endpoint)
    returns (again: Endpoint, err: Option<RefError>, err': Option<RefError>)
    modifies ko
    ensures fresh(again)
    ensures again.ipAddresses == ko.ipAddresses <==> IDsOverwritten(c, old(ko.ipAddresses))
    ensures Ids(again.securityGroupIDs) == Ids(ko.securityGroupIDs) <==>
      !BothForGroups(old(ko.securityGroupIDs), old(ko.securityGroupRefs))
    ensures err == err' <==>
      || SomeReferenceFails(c, old(ko.ipAddresses), old(ko.securityGroupRefs))
      || !(BothForSubnet(old(ko.ipAddresses)) || BothForGroups(old(ko.securityGroupIDs), old(ko.securityGroupRefs)))
  {
    ghost var ips, ids, refs := ko.ipAddresses, ko.securityGroupIDs, ko.securityGroupRefs;
    var has;
    ghost var m, n, m', n';
    has, err, m, n := ResolveReferences(c, ko);
    again := ClearResolvedReferences(ko);
    ghost var ips', ids' := again.ipAddresses, again.securityGroupIDs;
    has, err', m', n' := ResolveReferences(c, again);
    SameReach(c, ips, ids, refs, ko.ipAddresses, ko.securityGroupIDs, m, n,
              ids', again.ipAddresses, again.securityGroupIDs, m', n');
    SubnetsAgainIff(c, ips, ko.ipAddresses, again.ipAddresses, m);
    SameErrorIff(c, ips, ids, refs, ko.ipAddresses, ko.securityGroupIDs, m, n,
                 again.ipAddresses, again.securityGroupIDs);
  }
}
