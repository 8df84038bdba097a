/** pkg/tags/sync.go: the tags of a remote resource are brought in line with the desired ones by
    one call that sets tags and then one that removes tags. */
module TagSync {
  import opened Wrappers
  import opened Orders
  import opened Runs
  import opened TagLists
  import opened TagManager

  datatype Call =
    | TagResource(tags: seq<Tag>)
    | UntagResource(keys: seq<string>)

  type Log = seq<Event<TagMap, Call>>

  ghost function Effect(s: TagMap, c: Call): TagMap {
    match c
    case TagResource(tags) => s + MapOf(tags)
    case UntagResource(keys) => s - Elems(keys)
  }

  ghost predicate Step(s: TagMap, c: Call, t: TagMap) {
    t == Effect(s, c)
  }

  ghost predicate Listed(m: TagMap, order: seq<string>, listed: seq<Tag>) {
    IsOrder(order, m.Keys) && (forall k :: k in order ==> k in m) && listed == TagsOf(m, order)
  }

  class Backend {
    var tags: TagMap
    var calls: nat
    const fails: nat -> bool       // whether the n-th call is made to fail
    ghost var log: Log

    constructor (tags: TagMap, fails: nat -> bool)
      ensures this.tags == tags && this.fails == fails && log == []
    {
      this.tags, this.fails := tags, fails;
      calls, log := 0, [];
    }

    /** ListTagsForResource, in any order */
    method List() returns (ok: bool, listed: seq<Tag>, ghost order: seq<string>)
      modifies this`calls
      ensures calls == old(calls) + 1
      ensures ok == !fails(old(calls))
      ensures ok ==> Listed(tags, order, listed)
    {
      var keys := RangeOrder(tags.Keys);
      assert forall k :: k in keys <==> k in Elems(keys);
      var m := tags;
      order := keys;
      assert forall i :: 0 <= i < |keys| ==> keys[i] in keys;
      ok, listed := !fails(calls), seq(|keys|, i requires 0 <= i < |keys| => Tag(Some(keys[i]), Some(m[keys[i]])));
      assert listed == TagsOf(tags, keys);
      calls := calls + 1;
    }

    method SetTags(list: seq<Tag>) returns (ok: bool)
      modifies this
      ensures log == old(log) + [Event(TagResource(list), ok, tags)]
      ensures tags == if ok then old(tags) + MapOf(list) else old(tags)
      ensures calls == old(calls) + 1
      ensures ok == !fails(old(calls))
    {
      ok := !fails(calls);
      calls := calls + 1;
      if ok {
        var m, _ := ConvertToOrderedACKTags(list);
        tags := tags + m.m;
      }
      log := log + [Event(TagResource(list), ok, tags)];
    }

    method RemoveTags(keys: seq<string>) returns (ok: bool)
      modifies this
      ensures log == old(log) + [Event(UntagResource(keys), ok, tags)]
      ensures tags == if ok then old(tags) - Elems(keys) else old(tags)
      ensures calls == old(calls) + 1
      ensures ok == !fails(old(calls))
    {
      ok := !fails(calls);
      calls := calls + 1;
      if ok {
        tags := tags - (set k | k in keys);
      }
      log := log + [Event(UntagResource(keys), ok, tags)];
    }
  }

  lemma {:induction false} ListedMap(m: TagMap, order: seq<string>, listed: seq<Tag>)
    requires Listed(m, order, listed)
    ensures MapOf(listed) == m
  {
    MapOfTagsOf(m, order);
  }

  /** Copies the listed tags one by one. */
  method GetTags(b: Backend) returns (ok: bool, tags: seq<Tag>)
    modifies b`calls
    ensures ok ==> MapOf(tags) == b.tags
    ensures b.calls == old(b.calls) + 1 && ok == !b.fails(old(b.calls))
  {
    var listed;
    ghost var order;
    ok, listed, order := b.List();
    tags := [];
    if !ok {
      return;
    }
    for i := 0 to |listed|
      invariant tags == listed[..i]
    {
      tags := tags + [Tag(listed[i].key, listed[i].value)];
    }
    assert listed[..|listed|] == listed;
    ListedMap(b.tags, order, listed);
  }

  // ----- the difference -----

  /** What ackcompare.GetTagsDifference returns first: the tags of `to` that `from` lacks or has
      with another value. */
  function AddedTags(from: TagMap, to: TagMap): TagMap {
    map k | k in to && !(k in from && from[k] == to[k]) :: to[k]
  }

  /** What it returns last: the tags of `from` that `to` lacks or has with another value. */
  function RemovedTags(from: TagMap, to: TagMap): TagMap {
    map k | k in from && !(k in to && from[k] == to[k]) :: from[k]
  }

  /** At most one call to set tags and one to remove tags, each made only if it has something to do. */
  ghost function PlanOf(toAdd: seq<Tag>, toRemove: seq<string>): seq<Call> {
    (if toAdd == [] then [] else [TagResource(toAdd)])
    + if toRemove == [] then [] else [UntagResource(toRemove)]
  }

  ghost function SyncPlan(to: TagMap, adds: seq<string>, gone: seq<string>): seq<Call>
    requires forall k :: k in adds ==> k in to
  {
    PlanOf(TagsOf(to, adds), gone)
  }

  ghost predicate Arranged(from: TagMap, to: TagMap, adds: seq<string>, gone: seq<string>) {
    && IsOrder(adds, AddedTags(from, to).Keys) && (forall k :: k in adds ==> k in to)
    && IsOrder(gone, from.Keys - to.Keys)
  }

  /** A tag whose value changes is set again, not removed. */
  method DropChanged(tags: TagMap, added: TagMap) returns (removed: TagMap)
    ensures removed == tags - added.Keys
  {
    removed := tags;
    var keys := RangeOrder(tags.Keys);
    for i := 0 to |keys|
      invariant removed.Keys <= tags.Keys && forall k :: k in removed ==> removed[k] == tags[k]
      invariant forall k :: k in tags ==> (k in removed <==> k !in added || k in keys[i..])
    {
      if keys[i] in added {
        removed := removed - {keys[i]};
      }
    }
    assert forall k :: k in tags <==> k in Elems(keys);
  }

  method ListInAnyOrder(m: TagMap) returns (list: seq<Tag>, order: seq<string>)
    ensures IsOrder(order, m.Keys) && (forall k :: k in order ==> k in m) && list == TagsOf(m, order)
  {
    order := RangeOrder(m.Keys);
    assert forall k :: k in order <==> k in Elems(order);
    list := [];
    for i := 0 to |order|
      invariant forall k :: k in order[..i] ==> k in m
      invariant list == TagsOf(m, order[..i])
    {
      assert order[i] in order;
      list := list + [Tag(Some(order[i]), Some(m[order[i]]))];
      assert order[..i + 1] == order[..i] + [order[i]];
    }
    assert order[..|order|] == order;
  }

  /** The maps of what is to be set and what is to be removed, listed in any order. */
  method Difference(desiredTags: seq<Tag>, latestTags: seq<Tag>)
    returns (toAdd: seq<Tag>, toRemove: seq<string>, ghost adds: seq<string>)
    ensures Arranged(MapOf(latestTags), MapOf(desiredTags), adds, toRemove)
    ensures toAdd == TagsOf(MapOf(desiredTags), adds)
  {
    var from, _ := ConvertToOrderedACKTags(latestTags);
    var to, _ := ConvertToOrderedACKTags(desiredTags);
    var added, removed := AddedTags(from.m, to.m), RemovedTags(from.m, to.m);
    removed := DropChanged(removed, added);
    assert removed.Keys == from.m.Keys - to.m.Keys;
    var order;
    toAdd, order := ListInAnyOrder(added);
    toRemove := RangeOrder(removed.Keys);
    adds := order;
    assert TagsOf(added, order) == TagsOf(to.m, order);
  }

  lemma {:induction false} Appended(s: TagMap, run: Log, mid: TagMap, e: Event<TagMap, Call>)
    requires |run| <= 1 && (|run| == 1 ==> TakesAt(Step, s, run, 0)) && mid == StateAt(s, run, |run|)
    requires Takes(Step, mid, e)
    ensures forall k :: 0 <= k < |run + [e]| ==> TakesAt(Step, s, run + [e], k)
  {
    assert TakesAt(Step, s, run + [e], |run|);
    if |run| == 1 {
      assert TakesAt(Step, s, run + [e], 0);
    }
  }

  /** The two orders, and the run, are returned for the proofs. */
  method SyncTags(b: Backend, desiredTags: seq<Tag>, latestTags: seq<Tag>)
    returns (ok: bool, ghost adds: seq<string>, ghost gone: seq<string>, ghost run: Log)
    modifies b
    ensures b.log == old(b.log) + run
    ensures Arranged(MapOf(latestTags), MapOf(desiredTags), adds, gone)
    ensures Ran(Step, SyncPlan(MapOf(desiredTags), adds, gone), old(b.tags), run, b.tags, ok)
    ensures old(b.calls) <= b.calls
    ensures ok <==> NoFailure(b.fails, old(b.calls), b.calls)
  {
    var toAdd, toRemove;
    toAdd, toRemove, adds := Difference(desiredTags, latestTags);
    gone, run := toRemove, [];
    if |toAdd| > 0 {
      ok := b.SetTags(toAdd);
      run := [b.log[|b.log| - 1]];
      assert TakesAt(Step, old(b.tags), run, 0);
      if !ok {
        return;
      }
    }
    if |toRemove| > 0 {
      ghost var mid := b.tags;
      ok := b.RemoveTags(toRemove);
      ghost var e := b.log[|b.log| - 1];
      Appended(old(b.tags), run, mid, e);
      Regroup(old(b.log), run, [e]);
      run := run + [e];
      return;
    }
    ok := true;
  }

  // ----- what a synchronisation does -----

  /** The tags set are those that are new or changed; a tag that stays appears in no call, a
      changed one is never removed. */
  lemma {:induction false} CallsOnlyWhatDiffers(from: TagMap, to: TagMap, adds: seq<string>, gone: seq<string>,
                                                c: Call, k: string)
    requires Arranged(from, to, adds, gone) && c in SyncPlan(to, adds, gone)
    ensures c.TagResource? ==> (k in MapOf(c.tags) <==> k in to && (k in from ==> from[k] != to[k]))
    ensures c.TagResource? && k in MapOf(c.tags) ==> MapOf(c.tags)[k] == to[k]
    ensures c.UntagResource? ==> (k in c.keys <==> k in from && k !in to)
  {
    if c.TagResource? {
      MapOfTagsOf(to, adds);
      assert k in MapOf(c.tags) <==> k in Elems(adds);
    } else {
      assert k in c.keys <==> k in Elems(gone);
    }
  }

  /** Setting the tags that differ is as good as setting them all. */
  lemma {:induction false} OnlyDifferent(from: TagMap, to: TagMap, added: TagMap)
    requires added == to - (to.Keys - AddedTags(from, to).Keys)
    ensures from + added == from + to
  {
  }

  lemma {:induction false} EffectOfAdds(from: TagMap, to: TagMap, adds: seq<string>)
    requires IsOrder(adds, AddedTags(from, to).Keys) && forall k :: k in adds ==> k in to
    ensures from + MapOf(TagsOf(to, adds)) == from + to
    ensures adds == [] ==> from + to == from
  {
    MapOfTagsOf(to, adds);
    OnlyDifferent(from, to, MapOf(TagsOf(to, adds)));
    if adds == [] {
      assert MapOf(TagsOf(to, adds)) == map[];
      assert from + map[] == from;
    }
  }

  lemma {:induction false} EffectOfRemovals(from: TagMap, to: TagMap, gone: seq<string>)
    requires IsOrder(gone, from.Keys - to.Keys)
    ensures from + to - Elems(gone) == to
    ensures gone == [] ==> from + to == to
  {
    if gone == [] {
      assert from.Keys - to.Keys == {};
    }
  }

  lemma {:induction false} EffectOfSync(from: TagMap, to: TagMap, adds: seq<string>, gone: seq<string>)
    requires Arranged(from, to, adds, gone)
    ensures from + MapOf(TagsOf(to, adds)) == from + to
    ensures from + to - Elems(gone) == to
    ensures adds == [] ==> from + to == from
    ensures gone == [] ==> from + to == to
  {
    EffectOfAdds(from, to, adds);
    EffectOfRemovals(from, to, gone);
  }

  /** Between the calls the resource has its old tags, or those overridden by all the desired
      ones, or exactly the desired ones: no tag that stays is ever missing or changed. */
  lemma {:induction false} PointsOfSync(from: TagMap, to: TagMap, adds: seq<string>, gone: seq<string>, run: Log,
                                        k: nat)
    requires Arranged(from, to, adds, gone) && IsRun(Step, SyncPlan(to, adds, gone), from, run) && k <= |run|
    ensures StateAt(from, run, k) in {from, from + to, to}
    ensures AllOk(run) && k == |run| ==> StateAt(from, run, k) == to
  {
    EffectOfSync(from, to, adds, gone);
    if |run| > 0 {
      assert TakesAt(Step, from, run, 0);
    }
    if |run| > 1 {
      assert TakesAt(Step, from, run, 1);
    }
  }

  /** A failure is made good by the next synchronisation from the tags as they then are; after a
      failed removal it sets nothing again. */
  lemma {:induction false} RetryReaches(from: TagMap, to: TagMap, adds: seq<string>, gone: seq<string>, run: Log,
                                        adds': seq<string>, gone': seq<string>, run': Log)
    requires Arranged(from, to, adds, gone) && IsRun(Step, SyncPlan(to, adds, gone), from, run)
    requires var s := StateAt(from, run, |run|);
      Arranged(s, to, adds', gone') && IsRun(Step, SyncPlan(to, adds', gone'), s, run') && AllOk(run')
    ensures StateAt(StateAt(from, run, |run|), run', |run'|) == to
    ensures |run| > 0 && run[|run| - 1].call.UntagResource? ==> adds' == []
  {
    var s := StateAt(from, run, |run|);
    PointsOfSync(s, to, adds', gone', run', |run'|);
    PointsOfSync(from, to, adds, gone, run, |run|);
    if |run| > 0 && run[|run| - 1].call.UntagResource? {
      EffectOfSync(from, to, adds, gone);
      assert TakesAt(Step, from, run, 0);
      if |run| > 1 {
        assert TakesAt(Step, from, run, 1);
      }
      assert AddedTags(s, to) == map[];
      OrderLength(adds', {});
    }
  }

  /** There is something to do exactly when the two maps differ, which is also when the comparison
      of the resources reports a difference. */
  lemma {:induction false} NothingToDoIffEqual(from: TagMap, to: TagMap, adds: seq<string>, gone: seq<string>)
    requires Arranged(from, to, adds, gone)
    ensures SyncPlan(to, adds, gone) == [] <==> from == to
  {
    EffectOfSync(from, to, adds, gone);
    if from == to {
      assert AddedTags(from, to) == map[];
      OrderLength(adds, {});
      OrderLength(gone, {});
    }
  }

  /** After mirroring, no AWS tag is ever removed, and one is set only if the desired resource
      had it itself and the latest resource lacks it. */
  lemma {:induction false} MirrorProtectsAwsTags(desired: seq<Tag>, latest: seq<Tag>, rest: seq<string>,
                                                 out: seq<Tag>, adds: seq<string>, gone: seq<string>, c: Call,
                                                 k: string)
    requires Mirrored(desired, latest, rest, out)
    requires Arranged(MapOf(latest), MapOf(out), adds, gone) && c in SyncPlan(MapOf(out), adds, gone)
    requires AWS_PREFIX <= k
    ensures c.UntagResource? ==> k !in c.keys
    ensures c.TagResource? && k in MapOf(c.tags) ==> k in MapOf(desired) && k !in MapOf(latest)
  {
    MapRoundTrip(MapOf(desired) + AwsPart(MapOf(latest)), KeyOrder(desired), rest, out);
    CallsOnlyWhatDiffers(MapOf(latest), MapOf(out), adds, gone, c, k);
  }

  // ----- a round -----

  /** What the remote tags become: the default tags, overridden by the desired ones, and the AWS
      tags that the resource has. */
  ghost function Goal(s: TagMap, desired: TagMap, defaultTags: TagMap): TagMap {
    defaultTags + desired + AwsPart(s)
  }

  /** The AWS tags that the resource has are mirrored into `r`, and what then differs is synchronised. */
  method MirrorAndSync(b: Backend, r: Resource) returns (ok: bool)
    modifies b, r
    ensures old(b.calls) <= b.calls && (ok <==> NoFailure(b.fails, old(b.calls), b.calls))
    ensures ok ==> b.tags == MapOf(old(r.tags)) + AwsPart(old(b.tags)) == MapOf(r.tags)
    ensures old(b.log) <= b.log
    ensures MapOf(old(r.tags)) + AwsPart(old(b.tags)) == old(b.tags) ==> b.log == old(b.log) && b.tags == old(b.tags)
  {
    ghost var ensured := r.tags;
    var list;
    ok, list := GetTags(b);
    if !ok {
      return;
    }
    var latest := new Resource(list);
    ghost var rest := MirrorAWSTags(r, latest);
    MapRoundTrip(MapOf(ensured) + AwsPart(MapOf(list)), KeyOrder(ensured), rest, r.tags);
    ghost var adds, gone, run;
    ok, adds, gone, run := SyncTags(b, r.tags, latest.tags);
    PointsOfSync(MapOf(list), MapOf(r.tags), adds, gone, run, |run|);
    NothingToDoIffEqual(MapOf(list), MapOf(r.tags), adds, gone);
  }

  /** Default tags are added, the remote tags read and the AWS ones mirrored, and what differs is
      synchronised. */
  method TagRound(b: Backend, r: Resource, defaultTags: TagMap) returns (ok: bool)
    modifies b, r
    ensures old(b.calls) <= b.calls && (ok <==> NoFailure(b.fails, old(b.calls), b.calls))
    ensures ok ==> b.tags == Goal(old(b.tags), MapOf(old(r.tags)), defaultTags)
    ensures ok ==> MapOf(r.tags) == b.tags
    ensures old(b.log) <= b.log
    ensures Goal(old(b.tags), MapOf(old(r.tags)), defaultTags) == old(b.tags) ==>
      b.log == old(b.log) && b.tags == old(b.tags)
  {
    ghost var desired, order := r.tags, KeyOrder(r.tags);
    ghost var rest := EnsureTags(r, defaultTags);
    MapRoundTrip(defaultTags + MapOf(desired), order, rest, r.tags);
    ok := MirrorAndSync(b, r);
  }

  /** Key by key: the "aws:" tags are those of the resource, or else desired or default ones, and every
      other tag is the desired one, or else the default one. */
  lemma {:induction false} GoalByKey(s: TagMap, desired: TagMap, defaultTags: TagMap, k: string)
    ensures k in Goal(s, desired, defaultTags) <==> k in desired || k in defaultTags || (k in s && "aws:" <= k)
    ensures k in Goal(s, desired, defaultTags) ==>
      Goal(s, desired, defaultTags)[k]
        == if k in s && "aws:" <= k then s[k] else if k in desired then desired[k] else defaultTags[k]
  {
  }

  /** A goal that has been reached stays the goal, for the desired tags and for those that the
      round left in the resource. */
  lemma {:induction false} GoalReachedOnce(s: TagMap, desired: TagMap, defaultTags: TagMap)
    ensures var t := Goal(s, desired, defaultTags); Goal(t, t, defaultTags) == t && Goal(t, desired, defaultTags) == t
  {
  }

  /** After a successful round the next one makes no call, whether it starts from the desired tags
      again or from those that the first round left in the resource, and even if reading fails. */
  method TagRoundTwice(b: Backend, r: Resource, defaultTags: TagMap, afresh: bool)
    returns (ok: bool, ghost settled: Log)
    modifies b, r
    ensures old(b.log) <= settled
    ensures ok ==> b.log == settled && b.tags == Goal(old(b.tags), MapOf(old(r.tags)), defaultTags)
  {
    ghost var before := b.tags;
    var desired := r.tags;
    ok := TagRound(b, r, defaultTags);
    settled := b.log;
    if ok {
      GoalReachedOnce(before, MapOf(desired), defaultTags);
      if afresh {
        r.tags := desired;
      }
      var _ := TagRound(b, r, defaultTags);
    }
  }
}
