/** pkg/resource/resolver_rule/hook.go: the VPCs associated with a rule are brought in line with
    the desired ones by set difference, in whatever order the maps are visited. */
module RuleHook {
  import opened Wrappers
  import opened Orders
  import opened Runs
  import opened TargetAddresses
  import opened RuleBackend

  const TYPE_VPC_ID := "VPCID"

  /** One entry of Spec.Associations. */
  datatype Association = Association(
    id: Option<string>,
    name: Option<string>,
    resolverRuleID: Option<string>,
    status: Option<string>,
    statusMessage: Option<string>,
    vpcID: Option<string>)

  /** The custom resource. A nil list of associations and an empty one are treated alike. */
  class Rule {
    var id: Option<string>
    var name: Option<string>
    var endpointID: Option<string>
    var associations: seq<Association>
    var targetIPs: Option<seq<TargetAddress>>

    constructor (id: Option<string>, name: Option<string>, endpointID: Option<string>,
                 associations: seq<Association>, targetIPs: Option<seq<TargetAddress>>)
      ensures this.id == id && this.name == name && this.endpointID == endpointID
      ensures this.associations == associations && this.targetIPs == targetIPs
    {
      this.id, this.name, this.endpointID := id, name, endpointID;
      this.associations, this.targetIPs := associations, targetIPs;
    }

    method DeepCopy() returns (out: Rule)
      ensures fresh(out)
      ensures out.id == id && out.name == name && out.endpointID == endpointID
      ensures out.associations == associations && out.targetIPs == targetIPs
    {
      out := new Rule(id, name, endpointID, associations, targetIPs);
    }
  }

  /** An association as it is read. */
  function OnlyVpc(vpc: string): Association {
    Association(None, None, None, None, None, Some(vpc))
  }

  ghost function Vpcs(list: seq<Association>): set<string> {
    set a | a in list && a.vpcID.Some? :: a.vpcID.value
  }

  lemma {:induction false} VpcsSnoc(list: seq<Association>, a: Association)
    ensures Vpcs(list + [a]) == Vpcs(list) + if a.vpcID.Some? then {a.vpcID.value} else {}
  {
    forall x | x in list ensures x in list + [a] {
      var i :| 0 <= i < |list| && list[i] == x;
      assert (list + [a])[i] == x;
    }
    assert (list + [a])[|list|] == a;
  }

  // ----- the set expressions of the lo library -----

  function OmitByKeys(m: map<string, string>, keys: set<string>): map<string, string> {
    m - keys
  }

  function PickByKeys(m: map<string, string>, keys: set<string>): map<string, string> {
    m - (m.Keys - keys)
  }

  // ----- reading -----

  /** The associations of a listing that are not being deleted, of which only the VPC is kept. */
  method GetAttachedVPC(b: Backend) returns (list: seq<Association>, ghost seen: seq<string>)
    ensures IsOrder(seen, Active(b.assoc)) && list == Image(OnlyVpc, seen)
    ensures forall i :: 0 <= i < |list| ==> list[i].vpcID == Some(seen[i])
    ensures forall a :: a in list ==>
      a.id == None && a.name == None && a.resolverRuleID == None && a.status == None && a.statusMessage == None
    ensures Vpcs(list) == Active(b.assoc)
  {
    list := [];
    seen := [];
    var listed, order := b.List();
    for i := 0 to |listed|
      invariant NoDup(seen) && list == Image(OnlyVpc, seen)
      invariant forall v :: v in seen <==> v in order[..i] && b.assoc[v] != Deleting
      invariant Vpcs(list) == Elems(seen)
    {
      var association := listed[i];
      if association.status != Deleting {
        var a := Association(None, None, None, None, None, association.vpcId);
        VpcsSnoc(list, a);
        ElemsSnoc(seen, order[i]);
        ImageSnoc(OnlyVpc, seen, order[i]);
        list, seen := list + [a], seen + [order[i]];
      }
      assert order[..i + 1] == order[..i] + [order[i]];
    }
    assert order[..|order|] == order;
    assert forall v :: v in order <==> v in Elems(order);
    assert Elems(seen) == Active(b.assoc);
  }

  // ----- the calls -----

  ghost function Associates(order: seq<string>): (plan: seq<Call>)
    ensures |plan| == |order| && forall k :: 0 <= k < |plan| ==> plan[k] == Associate(order[k])
  {
    seq(|order|, k requires 0 <= k < |order| => Associate(order[k]))
  }

  ghost function Disassociates(order: seq<string>): (plan: seq<Call>)
    ensures |plan| == |order| && forall k :: 0 <= k < |plan| ==> plan[k] == Disassociate(order[k])
  {
    seq(|order|, k requires 0 <= k < |order| => Disassociate(order[k]))
  }

  /** The run ended with a call that the state of the rule does not allow. */
  ghost predicate Refused(run: Log, now: State) {
    && |run| > 0
    && match run[|run| - 1].call
       case Associate(v) => v in Active(now)
       case Disassociate(v) => v !in Active(now)
       case DeleteRule => true
  }

  method UpsertNewAssociations(b: Backend, toAdd: map<string, string>)
    returns (ok: bool, ghost order: seq<string>, ghost run: Log)
    requires forall v :: v in toAdd ==> toAdd[v] == TYPE_VPC_ID
    modifies b`assoc, b`calls, b`log
    ensures b.log == old(b.log) + run
    ensures IsOrder(order, toAdd.Keys) && Ran(Step, Associates(order), old(b.assoc), run, b.assoc, ok)
    ensures b.calls == old(b.calls) + |run| && (ok ==> NoFailure(b.fails, old(b.calls), b.calls))
    ensures NoFailure(b.fails, old(b.calls), b.calls) && !ok ==> Refused(run, b.assoc)
  {
    var keys := RangeOrder(toAdd.Keys);
    order, run := keys, [];
    ghost var plan := Associates(keys);
    for i := 0 to |keys|
      invariant b.log == old(b.log) + run && |run| == i
      invariant SoFar(Step, plan, old(b.assoc), run, b.assoc)
      invariant b.calls == old(b.calls) + i && NoneFails(b.fails, old(b.calls), b.calls)
    {
      var rid := keys[i];
      assert rid in Elems(keys);
      if toAdd[rid] == TYPE_VPC_ID {
        ghost var now := b.assoc;
        var done := b.AssociateRule(rid);
        ghost var e := b.log[|b.log| - 1];
        OneMoreLogged(Step, plan, old(b.assoc), old(b.log), run, now, e);
        run := run + [e];
        if !done {
          return false, order, run;
        }
      }
    }
    SoFarAll(Step, plan, old(b.assoc), run, b.assoc);
    NoneFailsMeans(b.fails, old(b.calls), b.calls);
    return true, order, run;
  }

  method DeleteOldAssociations(b: Backend, toDelete: map<string, string>)
    returns (ok: bool, ghost order: seq<string>, ghost run: Log)
    requires forall v :: v in toDelete ==> toDelete[v] == TYPE_VPC_ID
    modifies b`assoc, b`calls, b`log
    ensures b.log == old(b.log) + run
    ensures IsOrder(order, toDelete.Keys) && Ran(Step, Disassociates(order), old(b.assoc), run, b.assoc, ok)
    ensures b.calls == old(b.calls) + |run| && (ok ==> NoFailure(b.fails, old(b.calls), b.calls))
    ensures NoFailure(b.fails, old(b.calls), b.calls) && !ok ==> Refused(run, b.assoc)
  {
    var keys := RangeOrder(toDelete.Keys);
    order, run := keys, [];
    ghost var plan := Disassociates(keys);
    for i := 0 to |keys|
      invariant b.log == old(b.log) + run && |run| == i
      invariant SoFar(Step, plan, old(b.assoc), run, b.assoc)
      invariant b.calls == old(b.calls) + i && NoneFails(b.fails, old(b.calls), b.calls)
    {
      var rid := keys[i];
      assert rid in Elems(keys);
      if toDelete[rid] == TYPE_VPC_ID {
        ghost var now := b.assoc;
        var done := b.DisassociateRule(rid);
        ghost var e := b.log[|b.log| - 1];
        OneMoreLogged(Step, plan, old(b.assoc), old(b.log), run, now, e);
        run := run + [e];
        if !done {
          return false, order, run;
        }
      }
    }
    SoFarAll(Step, plan, old(b.assoc), run, b.assoc);
    NoneFailsMeans(b.fails, old(b.calls), b.calls);
    return true, order, run;
  }

  /** The orders in which the VPCs to associate and those to disassociate are visited. */
  ghost predicate Ordered(add: set<string>, del: set<string>, adds: seq<string>, dels: seq<string>) {
    IsOrder(adds, add) && IsOrder(dels, del)
  }

  method KeysOf(list: seq<Association>) returns (m: map<string, string>)
    ensures m.Keys == Vpcs(list) && forall v :: v in m ==> m[v] == TYPE_VPC_ID
  {
    m := map[];
    for i := 0 to |list|
      invariant m.Keys == Vpcs(list[..i]) && forall v :: v in m ==> m[v] == TYPE_VPC_ID
    {
      VpcsSnoc(list[..i], list[i]);
      assert list[..i + 1] == list[..i] + [list[i]];
      if list[i].vpcID.Some? {
        m := m[list[i].vpcID.value := TYPE_VPC_ID];
      }
    }
    assert list[..|list|] == list;
  }

  ghost function Latest(latest: Rule?): set<string>
    reads latest
  {
    if latest == null then {} else Vpcs(latest.associations)
  }

  /** The VPCs to associate and to disassociate; `latest` is null when the rule is new. */
  method Difference(desired: Rule, latest: Rule?) returns (toAdd: map<string, string>, toDelete: map<string, string>)
    ensures toAdd.Keys == Vpcs(desired.associations) - Latest(latest)
    ensures toDelete.Keys == Latest(latest) - Vpcs(desired.associations)
    ensures forall v :: v in toAdd ==> toAdd[v] == TYPE_VPC_ID
    ensures forall v :: v in toDelete ==> toDelete[v] == TYPE_VPC_ID
  {
    var latestAssociations: map<string, string> := map[];
    var associationidVpc: map<string, string> := map[];
    if latest != null {
      latestAssociations := KeysOf(latest.associations);
    }
    var desiredAssociations := KeysOf(desired.associations);
    toAdd := OmitByKeys(desiredAssociations, latestAssociations.Keys);
    var includedVpcs := PickByKeys(associationidVpc, desiredAssociations.Keys);
    var associationsDiff := OmitByKeys(latestAssociations, desiredAssociations.Keys);
    toDelete := OmitByKeys(associationsDiff, includedVpcs.Values);
    assert includedVpcs.Values == {};
  }

  /** The run and the two orders are returned for the proofs. */
  method SyncAssociation(b: Backend, desired: Rule, latest: Rule?)
    returns (ok: bool, ghost adds: seq<string>, ghost dels: seq<string>, ghost run: Log)
    modifies b`assoc, b`calls, b`log
    ensures b.log == old(b.log) + run
    ensures Ordered(Vpcs(desired.associations) - Latest(latest), Latest(latest) - Vpcs(desired.associations),
                    adds, dels)
    ensures Ran(Step, Associates(adds) + Disassociates(dels), old(b.assoc), run, b.assoc, ok)
    ensures b.calls == old(b.calls) + |run| && (ok ==> NoFailure(b.fails, old(b.calls), b.calls))
    ensures NoFailure(b.fails, old(b.calls), b.calls) && !ok ==> Refused(run, b.assoc)
  {
    var toAdd, toDelete := Difference(desired, latest);
    ok, adds, run := UpsertNewAssociations(b, toAdd);
    if !ok {
      dels := OrderExists(toDelete.Keys);
      RunShort(Step, Associates(adds), Disassociates(dels), old(b.assoc), run, b.assoc);
      return;
    }
    ghost var mid, more := b.assoc, [];
    ok, dels, more := DeleteOldAssociations(b, toDelete);
    RunThen(Step, Associates(adds), Disassociates(dels), old(b.assoc), run, mid, more, b.assoc, ok);
    assert !ok ==> |more| > 0 && (run + more)[|run + more| - 1] == more[|more| - 1];
    Regroup(old(b.log), run, more);
    run := run + more;
  }
}
