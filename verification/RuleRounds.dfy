/** Creating, reading, comparing, updating and deleting a resolver rule
    (pkg/resource/resolver_rule/sdk.go, delta.go and hook.go), and histories of such rounds. */
module RuleRounds {
  import opened Wrappers
  import opened Orders
  import opened Runs
  import opened TargetAddresses
  import opened RuleBackend
  import opened RuleHook

  const ASSOCIATIONS := "Spec.Associations"
  const ENDPOINT_ID := "Spec.ResolverEndpointID"
  const NAME := "Spec.Name"
  const TAGS := "Spec.Tags"
  const TARGET_IPS := "Spec.TargetIPs"

  /** The paths that are not among `others` in a comparison. */
  const PATHS := {ASSOCIATIONS, ENDPOINT_ID, NAME, TARGET_IPS}

  // ----- the work left -----

  /** How far the associated VPCs are from the desired ones: the size of the symmetric difference. */
  ghost function Distance(wanted: set<string>, s: State): nat {
    |wanted - Active(s)| + |Active(s) - wanted|
  }

  ghost predicate SyncOf(wanted: set<string>, s: State, adds: seq<string>, dels: seq<string>, run: Log) {
    && Ordered(wanted - Active(s), Active(s) - wanted, adds, dels)
    && IsRun(Step, Associates(adds) + Disassociates(dels), s, run)
  }

  /** A synchronisation made for the state it starts in. */
  ghost predicate IsSync(wanted: set<string>, s: State, run: Log) {
    exists adds, dels :: SyncOf(wanted, s, adds, dels, run)
  }

  /** A call that associates a desired VPC or disassociates one that is not desired. */
  ghost predicate Towards(wanted: set<string>, c: Call) {
    match c
    case Associate(v) => v in wanted
    case Disassociate(v) => v !in wanted
    case DeleteRule => false
  }

  lemma {:induction false} SyncTowards(wanted: set<string>, s: State, adds: seq<string>, dels: seq<string>,
                                       run: Log, k: nat)
    requires SyncOf(wanted, s, adds, dels, run) && k < |run|
    ensures Towards(wanted, run[k].call)
    ensures TakesAt(Step, s, run, k)
  {
    var plan := Associates(adds) + Disassociates(dels);
    assert run[k].call == plan[k];
    if k < |adds| {
      assert adds[k] in Elems(adds);
    } else {
      assert dels[k - |adds|] in Elems(dels);
    }
  }

  lemma {:induction false} OneNearer(wanted: set<string>, a: set<string>, v: string)
    ensures v in wanted && v !in a ==>
      |wanted - (a + {v})| == |wanted - a| - 1 && (a + {v}) - wanted == a - wanted
    ensures v !in wanted && v in a ==>
      wanted - (a - {v}) == wanted - a && |(a - {v}) - wanted| == |a - wanted| - 1
  {
    if v in wanted && v !in a {
      assert wanted - (a + {v}) == (wanted - a) - {v};
    }
    if v !in wanted && v in a {
      assert (a - {v}) - wanted == (a - wanted) - {v};
    }
  }

  /** Every successful call brings the associated VPCs nearer by exactly one, a failing one leaves
      them where they are. */
  lemma {:induction false} CallReducesDistance(wanted: set<string>, s: State, e: Event<State, Call>)
    requires Takes(Step, s, e) && Towards(wanted, e.call)
    ensures Distance(wanted, e.after) == Distance(wanted, s) - if e.ok then 1 else 0
  {
    if e.ok {
      StepActive(s, e.call, e.after);
      OneNearer(wanted, Active(s), e.call.vpc);
    }
  }

  ghost predicate NearerAt(wanted: set<string>, s: State, run: Log, k: nat)
    requires k < |run|
  {
    Distance(wanted, StateAt(s, run, k + 1)) == Distance(wanted, StateAt(s, run, k)) - if run[k].ok then 1 else 0
  }

  lemma {:induction false} SyncStep(wanted: set<string>, s: State, adds: seq<string>, dels: seq<string>, run: Log,
                                    k: nat)
    requires SyncOf(wanted, s, adds, dels, run) && k < |run|
    ensures NearerAt(wanted, s, run, k)
  {
    SyncTowards(wanted, s, adds, dels, run, k);
    CallReducesDistance(wanted, StateAt(s, run, k), run[k]);
  }

  lemma {:induction false} NearerAlong(wanted: set<string>, s: State, run: Log, k: nat)
    requires k <= |run| && forall j :: 0 <= j < |run| ==> NearerAt(wanted, s, run, j)
    ensures Distance(wanted, StateAt(s, run, k)) <= Distance(wanted, s)
    ensures (forall j :: 0 <= j < k ==> run[j].ok) ==> Distance(wanted, StateAt(s, run, k)) == Distance(wanted, s) - k
  {
    if k > 0 {
      NearerAlong(wanted, s, run, k - 1);
      assert NearerAt(wanted, s, run, k - 1);
    }
  }

  lemma {:induction false} SyncDistance(wanted: set<string>, s: State, adds: seq<string>, dels: seq<string>,
                                        run: Log, k: nat)
    requires SyncOf(wanted, s, adds, dels, run) && k <= |run|
    ensures Distance(wanted, StateAt(s, run, k)) <= Distance(wanted, s)
    ensures (forall j :: 0 <= j < k ==> run[j].ok) ==> Distance(wanted, StateAt(s, run, k)) == Distance(wanted, s) - k
  {
    forall j | 0 <= j < |run| ensures NearerAt(wanted, s, run, j) {
      SyncStep(wanted, s, adds, dels, run, j);
    }
    NearerAlong(wanted, s, run, k);
  }

  /** The distance covered is the number of successful calls. */
  lemma {:induction false} SyncLedger(wanted: set<string>, s: State, adds: seq<string>, dels: seq<string>, run: Log)
    requires SyncOf(wanted, s, adds, dels, run)
    ensures Distance(wanted, StateAt(s, run, |run|)) + Successes(run) == Distance(wanted, s)
  {
    SuccessesStop(run);
    if AllOk(run) {
      SyncDistance(wanted, s, adds, dels, run, |run|);
    } else {
      var n := |run| - 1;
      SyncDistance(wanted, s, adds, dels, run, n);
      SyncTowards(wanted, s, adds, dels, run, n);
    }
  }

  lemma {:induction false} NoDistanceIffEqual(wanted: set<string>, s: State)
    ensures Distance(wanted, s) == 0 <==> Active(s) == wanted
  {
    if Distance(wanted, s) == 0 {
      assert wanted - Active(s) == {} && Active(s) - wanted == {};
    }
    if Active(s) == wanted {
      assert wanted - Active(s) == {};
      assert Active(s) - wanted == {};
    }
  }

  /** A synchronisation without failures ends with exactly the desired VPCs associated. */
  lemma {:induction false} CompleteSyncConverges(wanted: set<string>, s: State, adds: seq<string>,
                                                 dels: seq<string>, run: Log)
    requires SyncOf(wanted, s, adds, dels, run) && AllOk(run)
    ensures Active(StateAt(s, run, |run|)) == wanted
  {
    OrderLength(adds, wanted - Active(s));
    OrderLength(dels, Active(s) - wanted);
    SyncDistance(wanted, s, adds, dels, run, |run|);
    NoDistanceIffEqual(wanted, StateAt(s, run, |run|));
  }

  /** The calls still to come are not affected by those made: nothing to associate is associated
      yet, nothing to disassociate is gone, so only the backend's own failures stop a run. */
  lemma {:induction false} NextCallPossible(wanted: set<string>, s: State, adds: seq<string>, dels: seq<string>,
                                            run: Log, k: nat)
    requires SyncOf(wanted, s, adds, dels, run)
    requires k <= |run| && forall j :: 0 <= j < k ==> run[j].ok
    ensures forall j :: k <= j < |adds| ==> adds[j] !in Active(StateAt(s, run, k))
    ensures forall j :: 0 <= j < |dels| && k <= |adds| + j ==> dels[j] in Active(StateAt(s, run, k))
  {
    if k == 0 {
      assert forall j :: 0 <= j < |adds| ==> adds[j] in Elems(adds);
      assert forall j :: 0 <= j < |dels| ==> dels[j] in Elems(dels);
    } else {
      NextCallPossible(wanted, s, adds, dels, run, k - 1);
      assert TakesAt(Step, s, run, k - 1);
      assert run[k - 1].call == (Associates(adds) + Disassociates(dels))[k - 1];
      StepActive(StateAt(s, run, k - 1), run[k - 1].call, run[k - 1].after);
    }
  }

  // ----- reading and comparing -----

  function Targets(r: Rule): seq<TargetAddress>
    reads r
  {
    if r.targetIPs.Some? then r.targetIPs.value else []
  }

  ghost function SdkTargets(c: Config): seq<SdkTargetAddress> {
    if c.targets.Some? then c.targets.value else []
  }

  /** The configuration of the rule is the one `r` asks for. */
  ghost predicate ConfigIs(config: Option<Config>, r: Rule)
    reads r
  {
    && config.Some? && config.value.name == r.name && config.value.endpointID == r.endpointID
    && ReadsBackAs(SdkTargets(config.value), Targets(r))
  }

  ghost predicate SameConfig(a: Rule, b: Rule)
    reads a, b
  {
    a.name == b.name && a.endpointID == b.endpointID && Targets(a) == Targets(b)
  }

  lemma {:induction false} ConfigIsBoth(config: Option<Config>, a: Rule, b: Rule)
    requires ConfigIs(config, a)
    ensures ConfigIs(config, b) <==> SameConfig(a, b)
  {
    if ConfigIs(config, b) {
      ReadBackUnique(SdkTargets(config.value), Targets(a), Targets(b));
    }
  }

  /** Reads the rule into a copy of `r`. */
  method SdkFind(b: Backend, r: Rule) returns (latest: Rule?, ghost order: seq<string>)
    modifies b`calls
    ensures latest != null ==> fresh(latest) && latest.id == r.id && ConfigIs(b.config, latest)
    ensures latest != null ==> IsOrder(order, Active(b.assoc)) && latest.associations == Image(OnlyVpc, order)
    ensures latest != null ==> Vpcs(latest.associations) == Active(b.assoc)
    ensures r.id.None? || b.config.None? ==> latest == null
    ensures old(b.calls) <= b.calls
    ensures latest != null <==> r.id.Some? && b.config.Some? && NoFailure(b.fails, old(b.calls), b.calls)
  {
    order := [];
    if r.id.None? {
      return null, order;
    }
    var ok, resp := b.Get();
    if !ok {
      return null, order;
    }
    var ko := r.DeepCopy();
    ko.name, ko.endpointID := resp.name, resp.endpointID;
    ko.targetIPs := ReadTargetIps(resp.targets);
    ko.associations, order := GetAttachedVPC(b);
    ok := b.OtherCall();
    if !ok {
      return null, order;
    }
    return ko, order;
  }

  function HasNilDifference(a: Option<string>, b: Option<string>): bool {
    a.Some? != b.Some?
  }

  predicate StringDiffers(a: Option<string>, b: Option<string>) {
    HasNilDifference(a, b) || (a.Some? && b.Some? && a.value != b.value)
  }

  lemma {:induction false} PathsDistinct()
    ensures ASSOCIATIONS != ENDPOINT_ID && ASSOCIATIONS != NAME && ASSOCIATIONS != TARGET_IPS
    ensures ENDPOINT_ID != NAME && ENDPOINT_ID != TARGET_IPS && NAME != TARGET_IPS
    ensures TAGS !in PATHS
  {
    assert |ASSOCIATIONS| == 17 && |ENDPOINT_ID| == 23 && |TARGET_IPS| == 14 && |NAME| == |TAGS| == 9;
    assert NAME[5] != TAGS[5];
  }

  /** The part of the comparison that concerns the configuration. */
  method ConfigDelta(a: Rule, b: Rule, others: set<string>) returns (delta: set<string>)
    ensures delta == others + (if a.name != b.name then {NAME} else {})
      + (if a.endpointID != b.endpointID then {ENDPOINT_ID} else {})
      + (if Targets(a) != Targets(b) then {TARGET_IPS} else {})
  {
    delta := others;
    if StringDiffers(a.name, b.name) {
      delta := delta + {NAME};
    }
    if StringDiffers(a.endpointID, b.endpointID) {
      delta := delta + {ENDPOINT_ID};
    }
    var p, q := Targets(a), Targets(b);
    if |p| != |q| {
      delta := delta + {TARGET_IPS};
    } else if |p| > 0 {
      if p != q {
        delta := delta + {TARGET_IPS};
      }
    }
  }

  /** `others` are the paths that the comparisons of the remaining fields add. */
  method NewResourceDelta(a: Rule, b: Rule, others: set<string>) returns (delta: set<string>)
    requires others !! PATHS
    ensures delta - PATHS == others
    ensures ASSOCIATIONS in delta <==> a.associations != b.associations
    ensures NAME in delta <==> a.name != b.name
    ensures ENDPOINT_ID in delta <==> a.endpointID != b.endpointID
    ensures TARGET_IPS in delta <==> Targets(a) != Targets(b)
  {
    PathsDistinct();
    delta := others;
    if |a.associations| != |b.associations| {
      delta := delta + {ASSOCIATIONS};
    } else if |a.associations| > 0 {
      if a.associations != b.associations {
        delta := delta + {ASSOCIATIONS};
      }
    }
    delta := ConfigDelta(a, b, delta);
  }

  // ----- updating -----

  method SyncResolverRuleConfig(b: Backend, desired: Rule) returns (ok: bool)
    modifies b`calls, b`config
    ensures ok ==> ConfigIs(b.config, desired)
    ensures !ok ==> b.config == old(b.config)
    ensures !AllFit(Targets(desired)) ==> !ok && b.calls == old(b.calls)
    ensures AllFit(Targets(desired)) ==>
      b.calls == old(b.calls) + 1 && ok == (!b.fails(old(b.calls)) && old(b.config).Some?)
  {
    var fit, targip := NewUpdateTargetIps(Targets(desired));
    if !fit {
      return false;
    }
    ok := b.Update(Config(desired.name, desired.endpointID, if |targip| == 0 then None else Some(targip)));
  }

  ghost predicate UpdateRun(desired: Rule, latest: Rule, s: State, adds: seq<string>, dels: seq<string>, run: Log)
    reads desired, latest
  {
    && Ordered(Vpcs(desired.associations) - Vpcs(latest.associations),
               Vpcs(latest.associations) - Vpcs(desired.associations), adds, dels)
    && IsRun(Step, Associates(adds) + Disassociates(dels), s, run)
  }

  ghost predicate SameRule(a: Rule, b: Rule)
    reads a, b
  {
    && a.id == b.id && a.name == b.name && a.endpointID == b.endpointID
    && a.associations == b.associations && a.targetIPs == b.targetIPs
  }

  /** The calls of an update that are not about associations: for tags, and for the configuration. */
  ghost function OtherCalls(delta: set<string>): nat {
    (if TAGS in delta then 1 else 0) + if TARGET_IPS in delta || NAME in delta then 1 else 0
  }

  datatype Outcome = Failure | Done | Requeue

  /** The first part of customUpdateResolverRule. */
  method UpdateTagsAndAssociations(b: Backend, desired: Rule, latest: Rule, delta: set<string>)
    returns (ok: bool, ghost adds: seq<string>, ghost dels: seq<string>, ghost run: Log)
    modifies b`assoc, b`calls, b`log
    ensures b.log == old(b.log) + run && b.assoc == StateAt(old(b.assoc), run, |run|)
    ensures run != [] || (ok && ASSOCIATIONS in delta) ==>
      ASSOCIATIONS in delta && UpdateRun(desired, latest, old(b.assoc), adds, dels, run)
    ensures run != [] && TAGS in delta ==> !b.fails(old(b.calls))
    ensures ok <==> AllOk(run) && NoFailure(b.fails, old(b.calls), b.calls)
    ensures b.calls == old(b.calls) + (if TAGS in delta then 1 else 0) + |run|
    ensures !ok && NoFailure(b.fails, old(b.calls), b.calls) ==>
      ASSOCIATIONS in delta && UpdateRun(desired, latest, old(b.assoc), adds, dels, run) && Refused(run, b.assoc)
  {
    adds, dels, run := [], [], [];
    if TAGS in delta {
      ok := b.OtherCall();
      if !ok {
        return;
      }
    }
    ok := true;
    if ASSOCIATIONS in delta {
      ok, adds, dels, run := SyncAssociation(b, desired, latest);
    }
  }

  method CustomUpdateResolverRule(b: Backend, desired: Rule, latest: Rule, delta: set<string>)
    returns (outcome: Outcome, updated: Rule?, ghost adds: seq<string>, ghost dels: seq<string>, ghost run: Log)
    modifies b
    ensures match outcome
            case Failure => updated == null
            case Done => updated == desired
            case Requeue => updated != null && fresh(updated) && SameRule(updated, desired)
    ensures b.log == old(b.log) + run && b.assoc == StateAt(old(b.assoc), run, |run|)
    ensures run != [] ==> ASSOCIATIONS in delta
    ensures run != [] && TAGS in delta ==> !b.fails(old(b.calls))
    ensures outcome != Failure ==> NoFailure(b.fails, old(b.calls), b.calls)
    ensures outcome != Failure ==> b.calls == old(b.calls) + OtherCalls(delta) + |run|
    ensures run != [] ==> UpdateRun(desired, latest, old(b.assoc), adds, dels, run)
    ensures !AllOk(run) ==> outcome == Failure
    ensures outcome != Failure && ASSOCIATIONS in delta ==> UpdateRun(desired, latest, old(b.assoc), adds, dels, run)
    ensures outcome != Failure ==> (outcome == Done <==> delta <= {TAGS, ASSOCIATIONS})
    ensures delta !! {TAGS, ASSOCIATIONS, TARGET_IPS, NAME} ==> outcome != Failure && b.calls == old(b.calls)
    ensures outcome == Failure || (TARGET_IPS !in delta && NAME !in delta) ==> b.config == old(b.config)
    ensures outcome != Failure && (TARGET_IPS in delta || NAME in delta) ==> ConfigIs(b.config, desired)
    ensures outcome != Failure && ConfigIs(old(b.config), latest) ==>
      (ConfigIs(b.config, desired) <==> TARGET_IPS in delta || NAME in delta || SameConfig(latest, desired))
    ensures old(b.calls) <= b.calls
    ensures NoFailure(b.fails, old(b.calls), b.calls) && AllOk(run) && old(b.config).Some? ==>
      (outcome == Failure <==> (TARGET_IPS in delta || NAME in delta) && !AllFit(Targets(desired)))
    ensures NoFailure(b.fails, old(b.calls), b.calls) && ASSOCIATIONS in delta ==>
      UpdateRun(desired, latest, old(b.assoc), adds, dels, run) && (AllOk(run) || Refused(run, b.assoc))
  {
    updated := null;
    if ConfigIs(b.config, latest) {
      ConfigIsBoth(b.config, latest, desired);
    }
    PathsDistinct();
    assert NAME in PATHS && TARGET_IPS in PATHS;
    assert forall p :: p in {NAME, TARGET_IPS} && p in delta ==> p in delta - {TAGS, ASSOCIATIONS};
    var ok;
    ok, adds, dels, run := UpdateTagsAndAssociations(b, desired, latest, delta);
    if !ok {
      return Failure, updated, adds, dels, run;
    }
    if delta - {TAGS, ASSOCIATIONS} == {} {
      return Done, desired, adds, dels, run;
    }
    var copy := desired.DeepCopy();
    if TARGET_IPS in delta || NAME in delta {
      ok := SyncResolverRuleConfig(b, desired);
      if !ok {
        return Failure, updated, adds, dels, run;
      }
    }
    return Requeue, copy, adds, dels, run;
  }

  // ----- creating -----

  /** The state a round starts in and the calls about associations it makes. */
  datatype Round = Round(start: State, log: Log)

  ghost function End(r: Round): State {
    StateAt(r.start, r.log, |r.log|)
  }

  ghost predicate RoundOk(wanted: set<string>, r: Round) {
    r.log == [] || IsSync(wanted, r.start, r.log)
  }

  method CreateAssociation(b: Backend, r: Rule)
    returns (ok: bool, ghost adds: seq<string>, ghost dels: seq<string>, ghost run: Log)
    modifies b`assoc, b`calls, b`log
    ensures b.log == old(b.log) + run
    ensures Ordered(Vpcs(r.associations), {}, adds, dels)
    ensures Ran(Step, Associates(adds) + Disassociates(dels), old(b.assoc), run, b.assoc, ok)
    ensures b.calls == old(b.calls) + |run|
    ensures NoFailure(b.fails, old(b.calls), b.calls) && !ok ==> Refused(run, b.assoc)
  {
    ok, adds, dels, run := SyncAssociation(b, r, null);
    assert Vpcs(r.associations) - {} == Vpcs(r.associations) && {} - Vpcs(r.associations) == {};
  }

  lemma {:induction false} NotRefused(wanted: set<string>, s: State, adds: seq<string>, dels: seq<string>, run: Log)
    requires SyncOf(wanted, s, adds, dels, run)
    ensures AllOk(run) || !Refused(run, StateAt(s, run, |run|))
  {
    if !AllOk(run) {
      var n := |run| - 1;
      NextCallPossible(wanted, s, adds, dels, run, n);
      assert TakesAt(Step, s, run, n);
      assert run[n].call == (Associates(adds) + Disassociates(dels))[n];
      assert StateAt(s, run, |run|) == StateAt(s, run, n);
    }
  }

  /** Creates the rule, of which the service returns what it was given, and associates its VPCs. An
      error while associating is ignored. */
  method SdkCreate(b: Backend, desired: Rule, newId: string) returns (created: Rule?, ghost round: Round)
    requires b.assoc == map[]
    modifies b
    ensures b.log == old(b.log) + round.log && round.start == map[] && End(round) == b.assoc
    ensures RoundOk(Vpcs(desired.associations), round)
    ensures created != null ==> IsSync(Vpcs(desired.associations), map[], round.log)
    ensures created != null && NoFailure(b.fails, old(b.calls), b.calls) ==>
      Active(b.assoc) == Vpcs(desired.associations)
    ensures created != null ==>
      fresh(created) && created.id == Some(newId) && created.associations == desired.associations
    ensures created != null ==>
      created.name == desired.name && created.endpointID == desired.endpointID && created.targetIPs == desired.targetIPs
    ensures if created == null then b.config == old(b.config) else ConfigIs(b.config, desired)
    ensures !AllFit(Targets(desired)) ==> created == null && b.calls == old(b.calls)
    ensures AllFit(Targets(desired)) ==> (created != null <==> !b.fails(old(b.calls)))
    ensures AllFit(Targets(desired)) ==> b.calls == old(b.calls) + 1 + |round.log|
    ensures created == null ==> round.log == []
  {
    round := Round(b.assoc, []);
    var fit, targetIps := NewCreateTargetIps(desired.targetIPs);
    if !fit {
      return null, round;
    }
    var resp := Config(desired.name, desired.endpointID, targetIps);
    var ok := b.Create(resp);
    if !ok {
      return null, round;
    }
    created := desired.DeepCopy();
    created.id := Some(newId);
    created.name, created.endpointID := resp.name, resp.endpointID;
    created.targetIPs := ReadTargetIps(resp.targets);
    assert targetIps.Some? ==> created.targetIPs.value == desired.targetIPs.value;
    ghost var wanted, adds, dels, run := Vpcs(desired.associations), [], [], [];
    assert wanted - Active(map[]) == wanted && Active(map[]) - wanted == {};
    if |desired.associations| > 0 {
      created.associations := desired.associations;
      ok, adds, dels, run := CreateAssociation(b, created);
      round := Round(round.start, run);
    }
    assert SyncOf(wanted, map[], adds, dels, run);
    if NoFailure(b.fails, old(b.calls), b.calls) {
      NotRefused(wanted, map[], adds, dels, run);
      CompleteSyncConverges(wanted, map[], adds, dels, run);
    }
  }

  // ----- deleting -----

  lemma {:induction false} NothingToAdd(listed: set<string>, adds: seq<string>, dels: seq<string>)
    requires Ordered({} - listed, listed - {}, adds, dels)
    ensures IsOrder(dels, listed) && Associates(adds) + Disassociates(dels) == Disassociates(dels)
  {
    OrderLength(adds, {});
    assert listed - {} == listed;
  }

  /** The first part of sdkDelete: a synchronisation with a copy that has no associations. */
  method DetachListed(b: Backend, r: Rule) returns (ok: bool, ghost dels: seq<string>, ghost run: Log)
    modifies b`assoc, b`calls, b`log
    ensures b.log == old(b.log) + run
    ensures IsOrder(dels, if r.id.Some? then Vpcs(r.associations) else {})
    ensures Ran(Step, Disassociates(dels), old(b.assoc), run, b.assoc, ok)
  {
    if |r.associations| > 0 && r.id.Some? {
      var desired := r.DeepCopy();
      desired.associations := [];
      ghost var adds;
      ok, adds, dels, run := SyncAssociation(b, desired, r);
      NothingToAdd(Vpcs(r.associations), adds, dels);
    } else {
      ok, dels, run := true, [], [];
    }
  }

  /** Disassociates the listed VPCs and only then deletes the rule. */
  method SdkDelete(b: Backend, r: Rule) returns (ok: bool, ghost dels: seq<string>, ghost run: Log)
    modifies b
    ensures b.config == if ok then None else old(b.config)
    ensures b.log == old(b.log) + run
    ensures IsOrder(dels, if r.id.Some? then Vpcs(r.associations) else {})
    ensures Ran(Step, Disassociates(dels) + [DeleteRule], old(b.assoc), run, b.assoc, ok)
  {
    ok, dels, run := DetachListed(b, r);
    if !ok {
      RunShort(Step, Disassociates(dels), [DeleteRule], old(b.assoc), run, b.assoc);
      return;
    }
    ghost var mid := b.assoc;
    ok := b.Delete(r.id);
    ghost var last := [b.log[|b.log| - 1]];
    assert TakesAt(Step, mid, last, 0);
    RunThen(Step, Disassociates(dels), [DeleteRule], old(b.assoc), run, mid, last, b.assoc, ok);
    Regroup(old(b.log), run, last);
    run := run + last;
  }

  lemma {:induction false} Detached(dels: seq<string>, s: State, run: Log, k: nat)
    requires IsRun(Step, Disassociates(dels) + [DeleteRule], s, run)
    requires k <= |run| && k <= |dels| && forall j :: 0 <= j < k ==> run[j].ok
    ensures Active(StateAt(s, run, k)) == Active(s) - Elems(dels[..k])
  {
    if k > 0 {
      Detached(dels, s, run, k - 1);
      assert TakesAt(Step, s, run, k - 1);
      assert run[k - 1].call == (Disassociates(dels) + [DeleteRule])[k - 1];
      StepActive(StateAt(s, run, k - 1), run[k - 1].call, run[k - 1].after);
      assert dels[..k] == dels[..k - 1] + [dels[k - 1]];
      ElemsSnoc(dels[..k - 1], dels[k - 1]);
    }
  }

  /** No association is made on the way to a deletion, and the rule is deleted, last of all, only
      when every listed VPC has been disassociated: after the whole sequence, without a failure. */
  lemma {:induction false} DeleteDetachesFirst(dels: seq<string>, s: State, run: Log, k: nat)
    requires IsRun(Step, Disassociates(dels) + [DeleteRule], s, run) && k < |run|
    ensures !run[k].call.Associate?
    ensures run[k].call.DeleteRule? ==> k == |dels| == |run| - 1 && forall j :: 0 <= j < k ==> run[j].ok
    ensures run[k].call.DeleteRule? ==> Active(StateAt(s, run, k)) == Active(s) - Elems(dels)
  {
    assert run[k].call == (Disassociates(dels) + [DeleteRule])[k];
    if run[k].call.DeleteRule? {
      Detached(dels, s, run, k);
      assert dels[..k] == dels;
    }
  }

  /** A rule whose associations are those read from the service is deleted with none left. */
  lemma {:induction false} DeleteLeavesNothing(dels: seq<string>, s: State, run: Log, k: nat)
    requires IsOrder(dels, Active(s)) && IsRun(Step, Disassociates(dels) + [DeleteRule], s, run)
    requires k < |run| && run[k].call.DeleteRule?
    ensures Active(StateAt(s, run, k)) == {}
  {
    DeleteDetachesFirst(dels, s, run, k);
  }

  /** A rule that is read and then deleted: nothing is associated on the way, and when the deletion
      is issued, no VPC is associated any more. */
  method FindAndDelete(b: Backend, r: Rule) returns (ok: bool, ghost run: Log)
    modifies b
    ensures b.config == if ok then None else old(b.config)
    ensures b.log == old(b.log) + run && b.assoc == StateAt(old(b.assoc), run, |run|)
    ensures forall k :: 0 <= k < |run| ==> !run[k].call.Associate?
    ensures forall k :: 0 <= k < |run| && run[k].call.DeleteRule? ==>
      k == |run| - 1 && Active(StateAt(old(b.assoc), run, k)) == {}
    ensures ok <==> |run| > 0 && run[|run| - 1].call.DeleteRule? && run[|run| - 1].ok
  {
    var latest, _ := SdkFind(b, r);
    run := [];
    if latest == null {
      return false, run;
    }
    ghost var dels;
    ok, dels, run := SdkDelete(b, latest);
    forall k | 0 <= k < |run|
      ensures !run[k].call.Associate?
      ensures run[k].call.DeleteRule? ==> k == |run| - 1 && Active(StateAt(old(b.assoc), run, k)) == {}
    {
      DeleteDetachesFirst(dels, old(b.assoc), run, k);
    }
    assert |run| == |dels| + 1 ==> run[|dels|].call == (Disassociates(dels) + [DeleteRule])[|dels|];
  }

  // ----- rounds -----

  ghost predicate NameAndTargetsAre(c: Config, r: Rule)
    reads r
  {
    c.name == r.name && ReadsBackAs(SdkTargets(c), Targets(r))
  }

  /** A round without a failed call makes the configuration the desired one: the ports fit, and the
      endpoint is right already or the name or the targets are not. */
  ghost predicate ConfigReached(c: Config, r: Rule)
    reads r
  {
    && AllFit(Targets(r))
    && (c.endpointID == r.endpointID || !NameAndTargetsAre(c, r))
  }

  /** What the comparison with the rule as it was read says about the configuration. */
  lemma {:induction false} ConfigOfLatest(c: Config, desired: Rule, latest: Rule)
    requires ConfigIs(Some(c), latest)
    ensures Targets(desired) == Targets(latest) <==> ReadsBackAs(SdkTargets(c), Targets(desired))
    ensures ReadsBackAs(SdkTargets(c), Targets(desired)) ==> AllFit(Targets(desired))
  {
    if ReadsBackAs(SdkTargets(c), Targets(desired)) {
      ReadBackUnique(SdkTargets(c), Targets(desired), Targets(latest));
      ReadsBackFits(SdkTargets(c), Targets(desired));
    }
  }

  /** Read, compare, and update if something differs. */
  method ReconcileRound(b: Backend, desired: Rule, others: set<string>) returns (outcome: Outcome, ghost round: Round)
    requires desired.id.Some? && others !! PATHS
    modifies b
    ensures b.log == old(b.log) + round.log
    ensures round.start == old(b.assoc) && End(round) == b.assoc
    ensures RoundOk(Vpcs(desired.associations), round)
    ensures old(b.calls) <= b.calls
    ensures NoFailure(b.fails, old(b.calls), b.calls) && old(b.config).Some? ==>
      && Active(b.assoc) == Vpcs(desired.associations)
      && (ConfigIs(b.config, desired) <==> ConfigReached(old(b.config).value, desired))
    ensures b.config == old(b.config) || ConfigIs(b.config, desired)
    ensures ConfigIs(old(b.config), desired) ==> ConfigIs(b.config, desired)
    ensures old(b.config).None? ==> b.config.None? && outcome == Failure
    ensures old(b.config).Some? && NameAndTargetsAre(old(b.config).value, desired) ==> b.config == old(b.config)
    ensures old(b.config).Some? && old(b.config).value.endpointID != desired.endpointID ==> outcome != Done
  {
    ghost var s, wanted, config := b.assoc, Vpcs(desired.associations), b.config;
    round := Round(s, []);
    var latest, _ := SdkFind(b, desired);
    if latest == null {
      return Failure, round;
    }
    ConfigOfLatest(config.value, desired, latest);
    var delta := NewResourceDelta(desired, latest, others);
    if delta == {} {
      return Done, round;
    }
    ghost var adds, dels, run;
    var updated;
    outcome, updated, adds, dels, run := CustomUpdateResolverRule(b, desired, latest, delta);
    round := Round(s, run);
    assert UpdateRun(desired, latest, s, adds, dels, run) ==> SyncOf(wanted, s, adds, dels, run);
    if NoFailure(b.fails, old(b.calls), b.calls) && ASSOCIATIONS in delta {
      NotRefused(wanted, s, adds, dels, run);
      CompleteSyncConverges(wanted, s, adds, dels, run);
    }
  }

  /** A change of the endpoint alone is never written: every round reports it and asks to be run
      again, or fails, and leaves the configuration as it is, however often that happens. */
  method EndpointAloneNeverWritten(b: Backend, desired: Rule, others: seq<set<string>>)
    returns (outcomes: seq<Outcome>)
    requires desired.id.Some? && forall i :: 0 <= i < |others| ==> others[i] !! PATHS
    requires b.config.Some? && NameAndTargetsAre(b.config.value, desired)
    requires b.config.value.endpointID != desired.endpointID
    modifies b
    ensures b.config == old(b.config) && !ConfigIs(b.config, desired)
    ensures |outcomes| == |others| && forall i :: 0 <= i < |outcomes| ==> outcomes[i] != Done
  {
    outcomes := [];
    for i := 0 to |others|
      invariant b.config == old(b.config)
      invariant |outcomes| == i && forall j :: 0 <= j < i ==> outcomes[j] != Done
    {
      var outcome, _ := ReconcileRound(b, desired, others[i]);
      outcomes := outcomes + [outcome];
    }
  }

  // ----- histories -----

  ghost predicate RoundAt(wanted: set<string>, rounds: seq<Round>, i: nat)
    requires i < |rounds|
  {
    RoundOk(wanted, rounds[i])
  }

  ghost predicate Linked(rounds: seq<Round>, i: nat)
    requires 0 < i < |rounds|
  {
    Active(rounds[i].start) == Active(End(rounds[i - 1]))
  }

  /** Rounds for one desired resource. Between two rounds a deletion in progress may finish. */
  ghost predicate History(wanted: set<string>, rounds: seq<Round>) {
    && (forall i :: 0 <= i < |rounds| ==> RoundAt(wanted, rounds, i))
    && (forall i :: 0 < i < |rounds| ==> Linked(rounds, i))
  }

  lemma {:induction false} RoundDistance(wanted: set<string>, r: Round, k: nat)
    requires RoundOk(wanted, r) && k <= |r.log|
    ensures Distance(wanted, StateAt(r.start, r.log, k)) <= Distance(wanted, r.start)
  {
    if r.log != [] {
      var adds, dels :| SyncOf(wanted, r.start, adds, dels, r.log);
      SyncDistance(wanted, r.start, adds, dels, r.log, k);
    }
  }

  /** Over any number of rounds, with any failures and in any order of the maps, the associated
      VPCs are never further from the desired ones than at the start of any earlier round. */
  lemma {:induction false} HistoryDistance(wanted: set<string>, rounds: seq<Round>, i: nat, j: nat, k: nat)
    requires History(wanted, rounds) && i <= j < |rounds| && k <= |rounds[j].log|
    ensures Distance(wanted, StateAt(rounds[j].start, rounds[j].log, k)) <= Distance(wanted, rounds[i].start)
  {
    assert RoundAt(wanted, rounds, j);
    RoundDistance(wanted, rounds[j], k);
    if i < j {
      assert Linked(rounds, j);
      HistoryDistance(wanted, rounds, i, j - 1, |rounds[j - 1].log|);
    }
  }

  ghost function Logs(rounds: seq<Round>): (logs: seq<Log>)
    ensures |logs| == |rounds| && forall i :: 0 <= i < |logs| ==> logs[i] == rounds[i].log
  {
    seq(|rounds|, i requires 0 <= i < |rounds| => rounds[i].log)
  }

  lemma {:induction false} RoundLedger(wanted: set<string>, r: Round)
    requires RoundOk(wanted, r)
    ensures Distance(wanted, End(r)) + Successes(r.log) == Distance(wanted, r.start)
    ensures StopsAtFailure(r.log)
  {
    if r.log != [] {
      var adds, dels :| SyncOf(wanted, r.start, adds, dels, r.log);
      SyncLedger(wanted, r.start, adds, dels, r.log);
    }
  }

  lemma {:induction false} LedgerUpTo(wanted: set<string>, rounds: seq<Round>, n: nat)
    requires History(wanted, rounds) && 0 < n <= |rounds|
    ensures Distance(wanted, End(rounds[n - 1])) + AllSuccesses(Logs(rounds)[..n]) == Distance(wanted, rounds[0].start)
  {
    assert RoundAt(wanted, rounds, n - 1);
    RoundLedger(wanted, rounds[n - 1]);
    assert Logs(rounds)[..n][..n - 1] == Logs(rounds)[..n - 1];
    if n > 1 {
      LedgerUpTo(wanted, rounds, n - 1);
      assert Linked(rounds, n - 1);
    }
  }

  /** Over any history, whatever fails, the distance covered is the number of successful calls: so
      none of them is ever undone, and there are at most as many calls as the distance at first,
      and one that fails for each round. */
  lemma {:induction false} HistoryLedger(wanted: set<string>, rounds: seq<Round>)
    requires History(wanted, rounds) && rounds != []
    ensures Distance(wanted, End(rounds[|rounds| - 1])) + AllSuccesses(Logs(rounds))
        == Distance(wanted, rounds[0].start)
    ensures AllCalls(Logs(rounds)) <= Distance(wanted, rounds[0].start) + |rounds|
  {
    LedgerUpTo(wanted, rounds, |rounds|);
    assert Logs(rounds)[..|rounds|] == Logs(rounds);
    forall i | 0 <= i < |rounds| ensures StopsAtFailure(Logs(rounds)[i]) {
      assert RoundAt(wanted, rounds, i);
      RoundLedger(wanted, rounds[i]);
    }
    CallsAndSuccesses(Logs(rounds));
  }

  /** Once they are equal, no round makes another call. */
  lemma {:induction false} HistorySettles(wanted: set<string>, rounds: seq<Round>, i: nat, j: nat)
    requires History(wanted, rounds) && i <= j < |rounds|
    requires Active(rounds[i].start) == wanted
    ensures rounds[j].log == [] && Active(End(rounds[j])) == wanted
  {
    if i < j {
      assert Linked(rounds, j);
      HistorySettles(wanted, rounds, i, j - 1);
    }
    var r := rounds[j];
    assert RoundAt(wanted, rounds, j);
    if r.log != [] {
      var adds, dels :| SyncOf(wanted, r.start, adds, dels, r.log);
      OrderLength(adds, wanted - Active(r.start));
      OrderLength(dels, Active(r.start) - wanted);
      NoDistanceIffEqual(wanted, r.start);
    }
  }

  lemma {:induction false} HistorySnoc(wanted: set<string>, rounds: seq<Round>, r: Round)
    requires History(wanted, rounds) && RoundOk(wanted, r)
    requires rounds != [] ==> r.start == End(rounds[|rounds| - 1])
    ensures History(wanted, rounds + [r])
    ensures Active(r.start) == wanted ==> End(r) == r.start
  {
    var all := rounds + [r];
    forall i | 0 <= i < |all| ensures RoundAt(wanted, all, i) {
      assert i < |rounds| ==> RoundAt(wanted, rounds, i);
    }
    forall i | 0 < i < |all| ensures Linked(all, i) {
      assert i < |rounds| ==> Linked(rounds, i);
    }
    if Active(r.start) == wanted {
      HistorySettles(wanted, [r], 0, 0);
    }
  }

  /** Creating a rule and any number of rounds after that, with any failures. From the first of them
      without one on, the create itself being the first, the associated VPCs are the desired ones,
      whatever became of those that the create was to associate. */
  method CreateThenReconcile(b: Backend, desired: Rule, newId: string, others: seq<set<string>>)
    returns (created: Rule?, ghost rounds: seq<Round>, ghost marks: seq<nat>)
    requires b.assoc == map[] && forall i :: 0 <= i < |others| ==> others[i] !! PATHS
    modifies b
    ensures |marks| == |rounds| + 1 && marks[0] == old(b.calls) && marks[|rounds|] == b.calls
    ensures History(Vpcs(desired.associations), rounds) && rounds != [] && End(rounds[|rounds| - 1]) == b.assoc
    ensures |rounds| == if created == null then 1 else 1 + |others|
    ensures created != null ==> ConfigIs(b.config, desired)
    ensures created != null && (exists i :: 0 <= i < |rounds| && CleanRound(b.fails, marks, i)) ==>
      Active(b.assoc) == Vpcs(desired.associations)
  {
    ghost var wanted, first := Vpcs(desired.associations), b.calls;
    ghost var round;
    created, round := SdkCreate(b, desired, newId);
    HistorySnoc(wanted, [], round);
    rounds, marks := [] + [round], [first, b.calls];
    if created == null {
      return;
    }
    for i := 0 to |others|
      invariant created.id.Some? && Vpcs(created.associations) == wanted
      invariant ConfigIs(b.config, desired) && ConfigIs(b.config, created)
      invariant SameConfig(created, desired)
      invariant |rounds| == i + 1 && |marks| == i + 2 && marks[0] == old(b.calls) && marks[i + 1] == b.calls
      invariant History(wanted, rounds) && End(rounds[i]) == b.assoc
      invariant (exists j :: 0 <= j < i + 1 && CleanRound(b.fails, marks, j)) ==> Active(b.assoc) == wanted
    {
      var _, r := ReconcileRound(b, created, others[i]);
      HistorySnoc(wanted, rounds, r);
      ghost var marks' := marks + [b.calls];
      assert forall j :: 0 <= j < i + 1 ==> CleanRound(b.fails, marks', j) == CleanRound(b.fails, marks, j);
      rounds, marks := rounds + [r], marks';
    }
  }

  // ----- what the comparison goes on reporting -----

  /** The associations as some reading of the rule gives them: SdkFind. */
  ghost predicate ReadAs(list: seq<Association>, s: State) {
    SomeShows(OnlyVpc, Active(s), list)
  }

  /** Each VPC is given once and nothing but the VPC is given. */
  ghost predicate Plain(list: seq<Association>) {
    NoDup(list) && forall a :: a in list ==> a.vpcID.Some? && a == OnlyVpc(a.vpcID.value)
  }

  lemma {:induction false} ShownPlain(order: seq<string>)
    requires NoDup(order)
    ensures Plain(Image(OnlyVpc, order)) && Vpcs(Image(OnlyVpc, order)) == Elems(order)
  {
    var list := Image(OnlyVpc, order);
    forall i, j | 0 <= i < j < |list| ensures list[i] != list[j] {
      assert list[i].vpcID == Some(order[i]) && list[j].vpcID == Some(order[j]);
    }
    forall v ensures v in Vpcs(list) <==> v in Elems(order) {
      if v in Elems(order) {
        var i :| 0 <= i < |order| && order[i] == v;
        assert list[i] in list && list[i].vpcID == Some(v);
      }
    }
  }

  /** What may be read are exactly the plain lists of the associated VPCs. */
  lemma {:induction false} ReadAsIff(list: seq<Association>, s: State)
    ensures ReadAs(list, s) <==> Plain(list) && Vpcs(list) == Active(s)
  {
    if order :| IsOrder(order, Active(s)) && Image(OnlyVpc, order) == list {
      ShownPlain(order);
    }
    if Plain(list) && Vpcs(list) == Active(s) {
      forall i | 0 <= i < |list| ensures list[i].vpcID.Some? && list[i] == OnlyVpc(list[i].vpcID.value) {
        assert list[i] in list;
      }
      var order := seq(|list|, i requires 0 <= i < |list| => list[i].vpcID.value);
      assert Image(OnlyVpc, order) == list;
      assert forall i, j :: 0 <= i < j < |order| ==> list[i] != list[j];
      ShownPlain(order);
      assert IsOrder(order, Active(s));
    }
  }

  lemma {:induction false} OneReading(desired: seq<Association>, list: seq<Association>, s: State)
    requires ReadAs(desired, s) && ReadAs(list, s) && |desired| <= 1
    ensures desired == list
  {
    var a :| IsOrder(a, Active(s)) && Image(OnlyVpc, a) == desired;
    var b :| IsOrder(b, Active(s)) && Image(OnlyVpc, b) == list;
    AlikeOrders(OnlyVpc, Active(s), a);
  }

  lemma {:induction false} NoReadingButOne(desired: seq<Association>, s: State)
    requires forall list :: ReadAs(list, s) ==> desired == list
    ensures Plain(desired) && |desired| <= 1
  {
    var order := OrderExists(Active(s));
    forall other | IsOrder(other, Active(s)) ensures Image(OnlyVpc, other) == desired {
      assert ReadAs(Image(OnlyVpc, other), s);
    }
    AllShowIff(OnlyVpc, Active(s), order, desired);
    ShownPlain(order);
    AlikeFirst(desired);
  }

  /** A settled rule makes no call any more. Every reading of it is reported when the desired list is
      not plain, and none is when it is plain and has at most one entry. Otherwise it depends on the
      order of the listing. */
  lemma {:induction false} SettledReportedIff(desired: seq<Association>, rounds: seq<Round>, i: nat, j: nat)
    requires History(Vpcs(desired), rounds) && i <= j < |rounds|
    requires Active(rounds[i].start) == Vpcs(desired)
    ensures rounds[j].log == [] && Active(rounds[j].start) == Vpcs(desired)
    ensures (forall list :: ReadAs(list, rounds[j].start) ==> desired != list) <==> !Plain(desired)
    ensures (forall list :: ReadAs(list, rounds[j].start) ==> desired == list) <==> Plain(desired) && |desired| <= 1
  {
    HistorySettles(Vpcs(desired), rounds, i, j);
    var s := rounds[j].start;
    ReadAsIff(desired, s);
    if Plain(desired) && |desired| <= 1 {
      forall list | ReadAs(list, s) ensures desired == list {
        OneReading(desired, list, s);
      }
    }
    if forall list :: ReadAs(list, s) ==> desired == list {
      NoReadingButOne(desired, s);
    }
  }

  /** The same VPC once by itself and once with a name: settled, and reported by every round. */
  lemma {:induction false} DuplicateReported(vpc: string, name: string, s: State)
    requires Active(s) == {vpc}
    ensures var desired := [OnlyVpc(vpc), OnlyVpc(vpc).(name := Some(name))];
      Vpcs(desired) == Active(s) && forall list :: ReadAs(list, s) ==> desired != list
  {
    var desired := [OnlyVpc(vpc), OnlyVpc(vpc).(name := Some(name))];
    assert desired[0] in desired && desired[1] in desired;
    ReadAsIff(desired, s);
  }
}
