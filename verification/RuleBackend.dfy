/** The remote resolver rule: the VPCs associated with it and the calls that change them. */
module RuleBackend {
  import opened Wrappers
  import opened Orders
  import opened Runs
  import opened TargetAddresses

  datatype Status = Creating | Completed | Deleting | Failed | Overridden

  /** The status of the association with each VPC that has one, by VPC ID. */
  type State = map<string, Status>

  datatype SdkAssociation = SdkAssociation(vpcId: Option<string>, status: Status)

  datatype Call =
    | Associate(vpc: string)
    | Disassociate(vpc: string)
    | DeleteRule

  type Log = seq<Event<State, Call>>

  datatype Config = Config(name: Option<string>, endpointID: Option<string>, targets: Option<seq<SdkTargetAddress>>)

  /** The VPCs associated with the rule. An association being deleted no longer counts. */
  ghost function Active(s: State): set<string> {
    set v | v in s && s[v] != Deleting
  }

  /** The effect of a successful call. A disassociation may take effect later, until when its
      association is being deleted. */
  ghost predicate Step(s: State, c: Call, t: State) {
    match c
    case Associate(v) => v !in Active(s) && v in t && t[v] != Deleting && t == s[v := t[v]]
    case Disassociate(v) => v in Active(s) && (t == s - {v} || t == s[v := Deleting])
    case DeleteRule => t == s
  }

  lemma {:induction false} StepActive(s: State, c: Call, t: State)
    requires Step(s, c, t)
    ensures c.Associate? ==> Active(t) == Active(s) + {c.vpc}
    ensures c.Disassociate? ==> Active(t) == Active(s) - {c.vpc}
    ensures c.DeleteRule? ==> Active(t) == Active(s)
  {
  }

  ghost predicate ListedAs(order: seq<string>, s: State, listed: seq<SdkAssociation>) {
    && IsOrder(order, s.Keys) && |listed| == |order|
    && forall i :: 0 <= i < |order| ==> order[i] in s && listed[i] == SdkAssociation(Some(order[i]), s[order[i]])
  }

  class Backend {
    var assoc: State
    var config: Option<Config>     // none as long as there is no rule
    var calls: nat
    const fails: nat -> bool       // whether the n-th call is made to fail
    ghost var log: Log             // the calls that may change the associations or delete the rule

    constructor (assoc: State, fails: nat -> bool)
      ensures this.assoc == assoc && this.fails == fails && log == []
    {
      this.assoc, this.fails := assoc, fails;
      config, calls, log := None, 0, [];
    }

    /** ListResolverRuleAssociations, taken to succeed and to fit in one page. */
    method List() returns (listed: seq<SdkAssociation>, ghost order: seq<string>)
      ensures ListedAs(order, assoc, listed)
    {
      var o := RangeOrder(assoc.Keys);
      assert forall v :: v in o ==> v in Elems(o);
      order := o;
      var s := assoc;
      assert forall i :: 0 <= i < |o| ==> o[i] in o;
      listed := seq(|o|, i requires 0 <= i < |o| => SdkAssociation(Some(o[i]), s[o[i]]));
    }

    /** Any other call: reading or writing the rule's tags. */
    method OtherCall() returns (ok: bool)
      modifies this`calls
      ensures calls == old(calls) + 1
      ensures ok == !fails(old(calls))
    {
      ok := !fails(calls);
      calls := calls + 1;
    }

    /** CreateResolverRule */
    method Create(c: Config) returns (ok: bool)
      modifies this`calls, this`config
      ensures calls == old(calls) + 1
      ensures ok == !fails(old(calls))
      ensures config == if ok then Some(c) else old(config)
    {
      ok := OtherCall();
      if ok {
        config := Some(c);
      }
    }

    /** GetResolverRule */
    method Get() returns (ok: bool, c: Config)
      modifies this`calls
      ensures calls == old(calls) + 1
      ensures ok == (!fails(old(calls)) && config.Some?)
      ensures ok ==> c == config.value
    {
      ok := OtherCall();
      ok, c := ok && config.Some?, if config.Some? then config.value else Config(None, None, None);
    }

    /** UpdateResolverRule */
    method Update(c: Config) returns (ok: bool)
      modifies this`calls, this`config
      ensures calls == old(calls) + 1
      ensures ok == (!fails(old(calls)) && old(config).Some?)
      ensures config == if ok then Some(c) else old(config)
    {
      ok := OtherCall();
      ok := ok && config.Some?;
      if ok {
        config := Some(c);
      }
    }

    method AssociateRule(vpc: string) returns (ok: bool)
      modifies this`assoc, this`calls, this`log
      ensures log == old(log) + [Event(Associate(vpc), ok, assoc)]
      ensures Takes(Step, old(assoc), log[|log| - 1])
      ensures calls == old(calls) + 1
      ensures ok == (!fails(old(calls)) && vpc !in Active(old(assoc)))
    {
      ok := !fails(calls) && !(vpc in assoc && assoc[vpc] != Deleting);
      calls := calls + 1;
      if ok {
        assoc := assoc[vpc := Creating];
      }
      log := log + [Event(Associate(vpc), ok, assoc)];
    }

    method DisassociateRule(vpc: string) returns (ok: bool)
      modifies this`assoc, this`calls, this`log
      ensures log == old(log) + [Event(Disassociate(vpc), ok, assoc)]
      ensures Takes(Step, old(assoc), log[|log| - 1])
      ensures calls == old(calls) + 1
      ensures ok == (!fails(old(calls)) && vpc in Active(old(assoc)))
    {
      ok := !fails(calls) && vpc in assoc && assoc[vpc] != Deleting;
      calls := calls + 1;
      if ok {
        assoc := assoc[vpc := Deleting];
      }
      log := log + [Event(Disassociate(vpc), ok, assoc)];
    }

    /** DeleteResolverRule */
    method Delete(id: Option<string>) returns (ok: bool)
      modifies this`calls, this`log, this`config
      ensures config == if ok then None else old(config)
      ensures log == old(log) + [Event(DeleteRule, ok, assoc)]
      ensures Takes(Step, assoc, log[|log| - 1])
      ensures calls == old(calls) + 1
      ensures ok == (!fails(old(calls)) && id.Some?)
    {
      ok := !fails(calls) && id.Some?;
      calls := calls + 1;
      if ok {
        config := None;
      }
      log := log + [Event(DeleteRule, ok, assoc)];
    }
  }
}
