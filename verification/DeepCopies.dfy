/** apis/v1alpha1/zz_generated.deepcopy.go: the specification of a rule as the objects it is made
    of. What is behind a pointer may be shared with other resources and within the resource; nothing
    that a copy points to was there before. */
module DeepCopies {
  import opened Wrappers
  import opened EndpointTypes
  import TagLists
  import TargetAddresses
  import RuleHook

  /** What a pointer to a single value points to. */
  class Cell<T> {
    var v: T

    constructor (v: T)
      ensures this.v == v
    {
      this.v := v;
    }
  }

  ghost function Deref<T>(c: Cell?<T>): Option<T>
    reads c
  {
    if c == null then None else Some(c.v)
  }

  ghost function Own(c: object?): set<object> {
    if c == null then {} else {c}
  }

  method CopyCell<T>(c: Cell?<T>) returns (d: Cell?<T>)
    ensures Deref(d) == Deref(c) && fresh(Own(d))
  {
    d := null;
    if c != null {
      d := new Cell(c.v);
    }
  }

  class TagObject {
    var key: Cell?<string>
    var value: Cell?<string>
    ghost var Repr: set<object>    // of a copy: itself and what it points to

    constructor ()
      ensures key == null && value == null
    {
      key, value := null, null;
    }

    ghost function Footprint(): set<object>
      reads this
    {
      {this} + Own(key) + Own(value)
    }

    ghost function Value(): TagLists.Tag
      reads Footprint()
    {
      TagLists.Tag(Deref(key), Deref(value))
    }

    ghost predicate Covered()
      reads this
    {
      Footprint() == Repr
    }

    method DeepCopyInto(out: TagObject)
      requires out != this
      modifies out
      ensures out.Value() == Value() && out.Covered() && fresh(out.Repr - {out})
      ensures Deref(out.key) == Deref(key) && Deref(out.value) == Deref(value)
    {
      out.key, out.value := key, value;
      out.key := CopyCell(key);
      out.value := CopyCell(value);
      out.Repr := out.Footprint();
    }
  }

  class TargetAddressObject {
    var ip: Cell?<string>
    var ipv6: Cell?<string>
    var port: Cell?<TargetAddresses.int64>
    ghost var Repr: set<object>    // of a copy: itself and what it points to

    constructor ()
      ensures ip == null && ipv6 == null && port == null
    {
      ip, ipv6, port := null, null, null;
    }

    ghost function Footprint(): set<object>
      reads this
    {
      {this} + Own(ip) + Own(ipv6) + Own(port)
    }

    ghost function Value(): TargetAddresses.TargetAddress
      reads Footprint()
    {
      TargetAddresses.TargetAddress(Deref(ip), Deref(ipv6), Deref(port))
    }

    ghost predicate Covered()
      reads this
    {
      Footprint() == Repr
    }

    method DeepCopyInto(out: TargetAddressObject)
      requires out != this
      modifies out
      ensures out.Value() == Value() && out.Covered() && fresh(out.Repr - {out})
      ensures Deref(out.ip) == Deref(ip) && Deref(out.ipv6) == Deref(ipv6) && Deref(out.port) == Deref(port)
    {
      out.ip, out.ipv6, out.port := ip, ipv6, port;
      out.ip := CopyCell(ip);
      out.ipv6 := CopyCell(ipv6);
      out.port := CopyCell(port);
      out.Repr := out.Footprint();
    }
  }

  class AssociationObject {
    var id: Cell?<string>
    var name: Cell?<string>
    var resolverRuleID: Cell?<string>
    var status: Cell?<string>
    var statusMessage: Cell?<string>
    var vpcID: Cell?<string>
    ghost var Repr: set<object>    // of a copy: itself and what it points to

    constructor ()
      ensures id == null && name == null && resolverRuleID == null
      ensures status == null && statusMessage == null && vpcID == null
    {
      id, name, resolverRuleID := null, null, null;
      status, statusMessage, vpcID := null, null, null;
    }

    ghost function Footprint(): set<object>
      reads this
    {
      {this} + Own(id) + Own(name) + Own(resolverRuleID) + Own(status) + Own(statusMessage) +
        Own(vpcID)
    }

    ghost function Value(): RuleHook.Association
      reads Footprint()
    {
      RuleHook.Association(Deref(id), Deref(name), Deref(resolverRuleID), Deref(status),
        Deref(statusMessage), Deref(vpcID))
    }

    ghost predicate Covered()
      reads this
    {
      Footprint() == Repr
    }

    method DeepCopyInto(out: AssociationObject)
      requires out != this
      modifies out
      ensures out.Value() == Value() && out.Covered() && fresh(out.Repr - {out})
      ensures Deref(out.id) == Deref(id) && Deref(out.name) == Deref(name)
      ensures Deref(out.resolverRuleID) == Deref(resolverRuleID) && Deref(out.status) == Deref(status)
      ensures Deref(out.statusMessage) == Deref(statusMessage) && Deref(out.vpcID) == Deref(vpcID)
    {
      out.id, out.name, out.resolverRuleID := id, name, resolverRuleID;
      out.status, out.statusMessage, out.vpcID := status, statusMessage, vpcID;
      out.id := CopyCell(id);
      out.name := CopyCell(name);
      out.resolverRuleID := CopyCell(resolverRuleID);
      CopyRest(out);
    }

    /** The rest of DeepCopyInto. */
    method CopyRest(out: AssociationObject)
      requires out != this
      modifies out`status, out`statusMessage, out`vpcID, out`Repr
      ensures out.Repr == out.Footprint()
      ensures Deref(out.status) == Deref(status) && Deref(out.statusMessage) == Deref(statusMessage)
      ensures Deref(out.vpcID) == Deref(vpcID)
      ensures fresh(Own(out.status) + Own(out.statusMessage) + Own(out.vpcID))
    {
      out.status := CopyCell(status);
      out.statusMessage := CopyCell(statusMessage);
      out.vpcID := CopyCell(vpcID);
      out.Repr := out.Footprint();
    }
  }

  // ----- lists of pointers -----

  ghost function TagOwn(t: TagObject?): set<object>
    reads t
  {
    if t == null then {} else t.Footprint()
  }

  ghost function TagValue(t: TagObject?): Option<TagLists.Tag>
    reads t, TagOwn(t)
  {
    if t == null then None else Some(t.Value())
  }

  ghost function TagRepr(t: TagObject?): set<object>
    reads t
  {
    if t == null then {} else t.Repr
  }

  ghost function TagsFootprint(list: seq<TagObject?>): set<object>
    reads set t | t in list
  {
    set i, o | 0 <= i < |list| && o in TagOwn(list[i]) :: o
  }

  /** Each element with what is behind it is apart from every other. */
  ghost predicate TagsApart(list: seq<TagObject?>)
    reads set t | t in list
  {
    && (forall i :: 0 <= i < |list| && list[i] != null ==> list[i].Covered())
    && (forall i, j :: 0 <= i < j < |list| ==> TagRepr(list[i]) !! TagRepr(list[j]))
  }

  ghost function TagsValue(list: seq<TagObject?>): (vs: seq<Option<TagLists.Tag>>)
    reads (set t | t in list), TagsFootprint(list)
  {
    seq(|list|, i requires 0 <= i < |list| reads (set t | t in list), TagsFootprint(list) => TagValue(list[i]))
  }

  method CopyTag(t: TagObject?) returns (out: TagObject?)
    ensures TagValue(out) == TagValue(t) && fresh(TagRepr(out)) && (out != null ==> out.Covered())
  {
    out := null;
    if t != null {
      out := new TagObject();
      t.DeepCopyInto(out);
    }
  }

  /** As long as nothing the list leads to changes, it shows the same. */
  twostate lemma TagsKept(list: seq<TagObject?>)
    requires forall t :: t in list ==> old(allocated(t))
    requires forall o :: o in old(TagsFootprint(list)) ==> unchanged(o)
    ensures TagsValue(list) == old(TagsValue(list)) && TagsFootprint(list) == old(TagsFootprint(list))
    ensures TagsApart(list) == old(TagsApart(list))
  {
    forall i | 0 <= i < |list| && list[i] != null ensures unchanged(list[i]) {
      assert old(list[i] in TagOwn(list[i]));
      var t: object := list[i];
      assert t in old(TagsFootprint(list));
    }
  }

  /** The elements are copied one by one; a nil list and a nil element stay nil. */
  method CopyTags(list: Option<seq<TagObject?>>) returns (copy: Option<seq<TagObject?>>)
    ensures copy.Some? == list.Some?
    ensures list.Some? ==> TagsValue(copy.value) == TagsValue(list.value) && fresh(TagsFootprint(copy.value))
    ensures list.Some? ==> TagsApart(copy.value)
  {
    if list.None? {
      return None;
    }
    var out: seq<TagObject?> := [];
    for i := 0 to |list.value|
      invariant |out| == i && forall j :: 0 <= j < i ==> fresh(TagRepr(out[j]))
      invariant forall j :: 0 <= j < i && out[j] != null ==> out[j].Covered()
      invariant forall j, k :: 0 <= j < k < i ==> TagRepr(out[j]) !! TagRepr(out[k])
      invariant forall j :: 0 <= j < i ==> TagValue(out[j]) == TagValue(list.value[j])
    {
      var t := CopyTag(list.value[i]);
      out := out + [t];
    }
    return Some(out);
  }

  ghost function TargetOwn(t: TargetAddressObject?): set<object>
    reads t
  {
    if t == null then {} else t.Footprint()
  }

  ghost function TargetValue(t: TargetAddressObject?): Option<TargetAddresses.TargetAddress>
    reads t, TargetOwn(t)
  {
    if t == null then None else Some(t.Value())
  }

  ghost function TargetRepr(t: TargetAddressObject?): set<object>
    reads t
  {
    if t == null then {} else t.Repr
  }

  ghost function TargetsFootprint(list: seq<TargetAddressObject?>): set<object>
    reads set t | t in list
  {
    set i, o | 0 <= i < |list| && o in TargetOwn(list[i]) :: o
  }

  /** Each element with what is behind it is apart from every other. */
  ghost predicate TargetsApart(list: seq<TargetAddressObject?>)
    reads set t | t in list
  {
    && (forall i :: 0 <= i < |list| && list[i] != null ==> list[i].Covered())
    && (forall i, j :: 0 <= i < j < |list| ==> TargetRepr(list[i]) !! TargetRepr(list[j]))
  }

  ghost function TargetsValue(list: seq<TargetAddressObject?>): (vs: seq<Option<TargetAddresses.TargetAddress>>)
    reads (set t | t in list), TargetsFootprint(list)
  {
    seq(|list|, i requires 0 <= i < |list| reads (set t | t in list), TargetsFootprint(list) => TargetValue(list[i]))
  }

  method CopyTarget(t: TargetAddressObject?) returns (out: TargetAddressObject?)
    ensures TargetValue(out) == TargetValue(t) && fresh(TargetRepr(out)) && (out != null ==> out.Covered())
  {
    out := null;
    if t != null {
      out := new TargetAddressObject();
      t.DeepCopyInto(out);
    }
  }

  /** As long as nothing the list leads to changes, it shows the same. */
  twostate lemma TargetsKept(list: seq<TargetAddressObject?>)
    requires forall t :: t in list ==> old(allocated(t))
    requires forall o :: o in old(TargetsFootprint(list)) ==> unchanged(o)
    ensures TargetsValue(list) == old(TargetsValue(list)) && TargetsFootprint(list) == old(TargetsFootprint(list))
    ensures TargetsApart(list) == old(TargetsApart(list))
  {
    forall i | 0 <= i < |list| && list[i] != null ensures unchanged(list[i]) {
      assert old(list[i] in TargetOwn(list[i]));
      var t: object := list[i];
      assert t in old(TargetsFootprint(list));
    }
  }

  /** The elements are copied one by one; a nil list and a nil element stay nil. */
  method CopyTargets(list: Option<seq<TargetAddressObject?>>) returns (copy: Option<seq<TargetAddressObject?>>)
    ensures copy.Some? == list.Some?
    ensures list.Some? ==> TargetsValue(copy.value) == TargetsValue(list.value) && fresh(TargetsFootprint(copy.value))
    ensures list.Some? ==> TargetsApart(copy.value)
  {
    if list.None? {
      return None;
    }
    var out: seq<TargetAddressObject?> := [];
    for i := 0 to |list.value|
      invariant |out| == i && forall j :: 0 <= j < i ==> fresh(TargetRepr(out[j]))
      invariant forall j :: 0 <= j < i && out[j] != null ==> out[j].Covered()
      invariant forall j, k :: 0 <= j < k < i ==> TargetRepr(out[j]) !! TargetRepr(out[k])
      invariant forall j :: 0 <= j < i ==> TargetValue(out[j]) == TargetValue(list.value[j])
    {
      var t := CopyTarget(list.value[i]);
      out := out + [t];
    }
    return Some(out);
  }

  ghost function AssociationOwn(t: AssociationObject?): set<object>
    reads t
  {
    if t == null then {} else t.Footprint()
  }

  ghost function AssociationValue(t: AssociationObject?): Option<RuleHook.Association>
    reads t, AssociationOwn(t)
  {
    if t == null then None else Some(t.Value())
  }

  ghost function AssociationRepr(t: AssociationObject?): set<object>
    reads t
  {
    if t == null then {} else t.Repr
  }

  ghost function AssociationsFootprint(list: seq<AssociationObject?>): set<object>
    reads set t | t in list
  {
    set i, o | 0 <= i < |list| && o in AssociationOwn(list[i]) :: o
  }

  /** Each element with what is behind it is apart from every other. */
  ghost predicate AssociationsApart(list: seq<AssociationObject?>)
    reads set t | t in list
  {
    && (forall i :: 0 <= i < |list| && list[i] != null ==> list[i].Covered())
    && (forall i, j :: 0 <= i < j < |list| ==> AssociationRepr(list[i]) !! AssociationRepr(list[j]))
  }

  ghost function AssociationsValue(list: seq<AssociationObject?>): (vs: seq<Option<RuleHook.Association>>)
    reads (set t | t in list), AssociationsFootprint(list)
  {
    seq(|list|, i requires 0 <= i < |list| reads (set t | t in list), AssociationsFootprint(list) =>
        AssociationValue(list[i]))
  }

  method CopyAssociation(t: AssociationObject?) returns (out: AssociationObject?)
    ensures AssociationValue(out) == AssociationValue(t) && fresh(AssociationRepr(out))
    ensures (out != null ==> out.Covered())
  {
    out := null;
    if t != null {
      out := new AssociationObject();
      t.DeepCopyInto(out);
    }
  }

  /** As long as nothing the list leads to changes, it shows the same. */
  twostate lemma AssociationsKept(list: seq<AssociationObject?>)
    requires forall t :: t in list ==> old(allocated(t))
    requires forall o :: o in old(AssociationsFootprint(list)) ==> unchanged(o)
    ensures AssociationsValue(list) == old(AssociationsValue(list))
    ensures AssociationsFootprint(list) == old(AssociationsFootprint(list))
    ensures AssociationsApart(list) == old(AssociationsApart(list))
  {
    forall i | 0 <= i < |list| && list[i] != null ensures unchanged(list[i]) {
      assert old(list[i] in AssociationOwn(list[i]));
      var t: object := list[i];
      assert t in old(AssociationsFootprint(list));
    }
  }

  /** The elements are copied one by one; a nil list and a nil element stay nil. */
  method CopyAssociations(list: Option<seq<AssociationObject?>>) returns (copy: Option<seq<AssociationObject?>>)
    ensures copy.Some? == list.Some?
    ensures list.Some? ==>
      AssociationsValue(copy.value) == AssociationsValue(list.value) && fresh(AssociationsFootprint(copy.value))
    ensures list.Some? ==> AssociationsApart(copy.value)
  {
    if list.None? {
      return None;
    }
    var out: seq<AssociationObject?> := [];
    for i := 0 to |list.value|
      invariant |out| == i && forall j :: 0 <= j < i ==> fresh(AssociationRepr(out[j]))
      invariant forall j :: 0 <= j < i && out[j] != null ==> out[j].Covered()
      invariant forall j, k :: 0 <= j < k < i ==> AssociationRepr(out[j]) !! AssociationRepr(out[k])
      invariant forall j :: 0 <= j < i ==> AssociationValue(out[j]) == AssociationValue(list.value[j])
    {
      var t := CopyAssociation(list.value[i]);
      out := out + [t];
    }
    return Some(out);
  }

  // ----- the whole specification -----

  datatype SpecValue = SpecValue(
    associations: Option<seq<Option<RuleHook.Association>>>,
    domainName: Option<string>,
    name: Option<string>,
    resolverEndpointID: Option<string>,
    resolverEndpointRef: Option<ReferenceWrapper>,
    ruleType: Option<string>,
    tags: Option<seq<Option<TagLists.Tag>>>,
    targetIPs: Option<seq<Option<TargetAddresses.TargetAddress>>>)

  /** The entries of a list that may be nil. */
  ghost function Given<T>(list: Option<seq<T>>): seq<T> {
    if list.Some? then list.value else []
  }

  class ResolverRuleSpec {
    var associations: Option<seq<AssociationObject?>>
    var domainName: Cell?<string>
    var name: Cell?<string>
    var resolverEndpointID: Cell?<string>
    var resolverEndpointRef: Cell?<ReferenceWrapper>
    var ruleType: Cell?<string>
    var tags: Option<seq<TagObject?>>
    var targetIPs: Option<seq<TargetAddressObject?>>

    constructor (associations: Option<seq<AssociationObject?>>, domainName: Cell?<string>, name: Cell?<string>,
                 resolverEndpointID: Cell?<string>, resolverEndpointRef: Cell?<ReferenceWrapper>,
                 ruleType: Cell?<string>, tags: Option<seq<TagObject?>>, targetIPs: Option<seq<TargetAddressObject?>>)
      ensures this.associations == associations && this.tags == tags && this.targetIPs == targetIPs
      ensures this.domainName == domainName && this.name == name && this.ruleType == ruleType
      ensures this.resolverEndpointID == resolverEndpointID && this.resolverEndpointRef == resolverEndpointRef
    {
      this.associations, this.tags, this.targetIPs := associations, tags, targetIPs;
      this.domainName, this.name, this.ruleType := domainName, name, ruleType;
      this.resolverEndpointID, this.resolverEndpointRef := resolverEndpointID, resolverEndpointRef;
    }

    ghost function Cells(): set<object>
      reads this
    {
      Own(domainName) + Own(name) + Own(resolverEndpointID) + Own(resolverEndpointRef) + Own(ruleType)
    }

    ghost predicate SameCells(c: ResolverRuleSpec)
      reads this, Cells(), c, c.Cells()
    {
      && Deref(c.domainName) == Deref(domainName) && Deref(c.name) == Deref(name)
      && Deref(c.resolverEndpointID) == Deref(resolverEndpointID)
      && Deref(c.resolverEndpointRef) == Deref(resolverEndpointRef) && Deref(c.ruleType) == Deref(ruleType)
    }

    ghost predicate SameAssociations(c: ResolverRuleSpec)
      reads this, (set x | x in Given(associations)), AssociationsFootprint(Given(associations))
      reads c, (set x | x in Given(c.associations)), AssociationsFootprint(Given(c.associations))
    {
      && c.associations.Some? == associations.Some?
      && AssociationsValue(Given(c.associations)) == AssociationsValue(Given(associations))
    }

    ghost predicate SameTags(c: ResolverRuleSpec)
      reads this, (set x | x in Given(tags)), TagsFootprint(Given(tags))
      reads c, (set x | x in Given(c.tags)), TagsFootprint(Given(c.tags))
    {
      c.tags.Some? == tags.Some? && TagsValue(Given(c.tags)) == TagsValue(Given(tags))
    }

    ghost predicate SameTargets(c: ResolverRuleSpec)
      reads this, (set x | x in Given(targetIPs)), TargetsFootprint(Given(targetIPs))
      reads c, (set x | x in Given(c.targetIPs)), TargetsFootprint(Given(c.targetIPs))
    {
      c.targetIPs.Some? == targetIPs.Some? && TargetsValue(Given(c.targetIPs)) == TargetsValue(Given(targetIPs))
    }

    ghost function Elements(): set<object?>
      reads this
    {
      (set x | x in Given(associations)) + (set x | x in Given(tags)) + (set x | x in Given(targetIPs))
    }

    /** Everything that is reached from the specification. */
    ghost function Behind(): set<object>
      reads this, Elements()
    {
      Cells() + AssociationsFootprint(Given(associations)) + TagsFootprint(Given(tags))
          + TargetsFootprint(Given(targetIPs))
    }

    ghost function Value(): SpecValue
      reads this, Elements(), Behind()
    {
      SpecValue(
        if associations.Some? then Some(AssociationsValue(associations.value)) else None,
        Deref(domainName), Deref(name), Deref(resolverEndpointID), Deref(resolverEndpointRef), Deref(ruleType),
        if tags.Some? then Some(TagsValue(tags.value)) else None,
        if targetIPs.Some? then Some(TargetsValue(targetIPs.value)) else None)
    }

    /** The fields that point to single values are copied last, into a specification with these lists. */
    method CopyCells(a: Option<seq<AssociationObject?>>, t: Option<seq<TagObject?>>,
                     p: Option<seq<TargetAddressObject?>>, ghost others: set<object>)
      returns (out: ResolverRuleSpec)
      ensures forall o :: o in others ==> unchanged(o)
      ensures fresh(out) && out.associations == a && out.tags == t && out.targetIPs == p
      ensures SameCells(out) && fresh(out.Cells())
    {
      var d := CopyCell(domainName);
      var n := CopyCell(name);
      var e := CopyCell(resolverEndpointID);
      var f := CopyCell(resolverEndpointRef);
      var r := CopyCell(ruleType);
      out := new ResolverRuleSpec(a, d, n, e, f, r, t, p);
    }

    method CopyFromTargets(a: Option<seq<AssociationObject?>>, t: Option<seq<TagObject?>>, ghost others: set<object>)
      returns (out: ResolverRuleSpec)
      ensures forall o :: o in others ==> unchanged(o)
      ensures fresh(out) && out.associations == a && out.tags == t
      ensures SameCells(out) && fresh(out.Cells())
      ensures SameTargets(out) && fresh(TargetsFootprint(Given(out.targetIPs))) && TargetsApart(Given(out.targetIPs))
    {
      var p := CopyTargets(targetIPs);
      label L:
      out := CopyCells(a, t, p, TargetsFootprint(Given(p)) + TargetsFootprint(Given(targetIPs)));
      TargetsKept@L(Given(p));
      TargetsKept@L(Given(targetIPs));
    }

    /** The tags are copied before the targets. */
    method CopyFromTags(a: Option<seq<AssociationObject?>>, ghost others: set<object>) returns (out: ResolverRuleSpec)
      ensures forall o :: o in others ==> unchanged(o)
      ensures fresh(out) && out.associations == a
      ensures SameCells(out) && fresh(out.Cells())
      ensures SameTargets(out) && fresh(TargetsFootprint(Given(out.targetIPs)))
      ensures SameTags(out) && fresh(TagsFootprint(Given(out.tags))) && TagsApart(Given(out.tags))
      ensures TargetsApart(Given(out.targetIPs))
    {
      var t := CopyTags(tags);
      label L:
      out := CopyFromTargets(a, t, TagsFootprint(Given(t)) + TagsFootprint(Given(tags)));
      TagsKept@L(Given(t));
      TagsKept@L(Given(tags));
    }

    /** The associations are copied first. */
    method CopyFromAssociations() returns (out: ResolverRuleSpec)
      ensures fresh(out) && SameCells(out) && fresh(out.Cells())
      ensures SameTargets(out) && fresh(TargetsFootprint(Given(out.targetIPs))) && TargetsApart(Given(out.targetIPs))
      ensures SameTags(out) && fresh(TagsFootprint(Given(out.tags))) && TagsApart(Given(out.tags))
      ensures SameAssociations(out) && fresh(AssociationsFootprint(Given(out.associations)))
      ensures AssociationsApart(Given(out.associations))
    {
      var a := CopyAssociations(associations);
      label L:
      out := CopyFromTags(a, AssociationsFootprint(Given(a)) + AssociationsFootprint(Given(associations)));
      AssociationsKept@L(Given(a));
      AssociationsKept@L(Given(associations));
    }

    /** The copy shows the same value; neither it nor anything behind it was there before, and the
        elements of its lists lead to nothing in common. */
    method DeepCopy() returns (out: ResolverRuleSpec)
      ensures out.Value() == Value()
      ensures Deref(out.domainName) == Deref(domainName) && Deref(out.name) == Deref(name)
      ensures Deref(out.resolverEndpointID) == Deref(resolverEndpointID)
      ensures Deref(out.resolverEndpointRef) == Deref(resolverEndpointRef) && Deref(out.ruleType) == Deref(ruleType)
      ensures fresh(out) && fresh(out.Behind())
      ensures AssociationsApart(Given(out.associations)) && TagsApart(Given(out.tags))
      ensures TargetsApart(Given(out.targetIPs))
    {
      out := CopyFromAssociations();
    }
  }
}
