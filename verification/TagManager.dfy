/** pkg/resource/resolver_endpoint/manager.go: default tags are added to a resource, system tags
    filtered out of it, and tags that AWS itself set carried over to the desired resource. */
module TagManager {
  import opened Wrappers
  import opened Orders
  import opened TagLists

  const AWS_PREFIX := "aws:"

  class Resource {
    var tags: seq<Tag>    // Spec.Tags

    constructor (tags: seq<Tag>)
      ensures this.tags == tags
    {
      this.tags := tags;
    }
  }

  predicate IsSystem(key: string, systemTags: seq<string>) {
    AWS_PREFIX <= key || key in systemTags
  }

  // ----- the operations on maps -----

  /** acktags.Merge: the tags of `a` take precedence. */
  function Merge(a: TagMap, b: TagMap): TagMap {
    b + a
  }

  ghost function Without(m: TagMap, systemTags: seq<string>): TagMap {
    map k | k in m && !IsSystem(k, systemTags) :: m[k]
  }

  ghost function AwsPart(m: TagMap): TagMap {
    map k | k in m && AWS_PREFIX <= k :: m[k]
  }

  method IgnoreSystemTags(tags: AckTags, systemTags: seq<string>)
    modifies tags
    ensures tags.m == Without(old(tags.m), systemTags)
  {
    ghost var m := tags.m;
    var keys := RangeOrder(tags.m.Keys);
    for i := 0 to |keys|
      invariant tags.m.Keys <= m.Keys && forall k :: k in tags.m ==> tags.m[k] == m[k]
      invariant forall k :: k in m ==> (k in tags.m <==> !IsSystem(k, systemTags) || k in keys[i..])
    {
      if AWS_PREFIX <= keys[i] || keys[i] in systemTags {
        tags.m := tags.m - {keys[i]};
      }
    }
    assert forall k :: k in m <==> k in Elems(keys);
  }

  method SyncAWSTags(a: AckTags, b: AckTags)
    requires a != b
    modifies a
    ensures a.m == old(a.m) + AwsPart(b.m)
  {
    ghost var m, done := a.m, {};
    var keys := RangeOrder(b.m.Keys);
    for i := 0 to |keys|
      invariant done == Elems(keys[..i]) && done <= b.m.Keys
      invariant forall k :: k in a.m <==> k in m || (k in done && AWS_PREFIX <= k)
      invariant forall k :: k in a.m ==> a.m[k] == if k in done && AWS_PREFIX <= k then b.m[k] else m[k]
    {
      assert keys[i] in Elems(keys);
      assert keys[..i + 1] == keys[..i] + [keys[i]];
      ElemsSnoc(keys[..i], keys[i]);
      if AWS_PREFIX <= keys[i] {
        a.m := a.m[keys[i] := b.m[keys[i]]];
      }
      done := done + {keys[i]};
    }
    assert keys[..|keys|] == keys;
  }

  // ----- the operations on resources -----

  method EnsureTags(r: Resource, defaultTags: TagMap) returns (ghost rest: seq<string>)
    modifies r
    ensures WrittenWith(defaultTags + MapOf(old(r.tags)), KeyOrder(old(r.tags)), rest, r.tags)
  {
    var resourceTags, keyOrder := ConvertToOrderedACKTags(r.tags);
    var tags := new AckTags(Merge(resourceTags.m, defaultTags));
    r.tags, rest := FromACKTags(tags, keyOrder);
  }

  /** What filtering makes of a list: its remaining keys in the order of the list, whatever the
      order of the map. */
  ghost function Filtered(tags: seq<Tag>, systemTags: seq<string>): seq<Tag> {
    var m := Without(MapOf(tags), systemTags);
    TagsOf(m, Firsts(m.Keys, KeyOrder(tags)))
  }

  lemma {:induction false} NothingLeft(tags: seq<Tag>, systemTags: seq<string>, rest: seq<string>, out: seq<Tag>)
    requires WrittenWith(Without(MapOf(tags), systemTags), KeyOrder(tags), rest, out)
    ensures out == Filtered(tags, systemTags)
  {
    var m := Without(MapOf(tags), systemTags);
    KeysOfList(tags);
    assert m.Keys - Elems(KeyOrder(tags)) == {};
    OrderLength(rest, {});
    assert Firsts(m.Keys, KeyOrder(tags)) + rest == Firsts(m.Keys, KeyOrder(tags));
  }

  method FilterSystemTags(r: Resource?, systemTags: seq<string>)
    modifies r
    ensures r != null ==> r.tags == Filtered(old(r.tags), systemTags)
  {
    if r == null {
      return;
    }
    var resourceTags, tagKeyOrder := ConvertToOrderedACKTags(r.tags);
    IgnoreSystemTags(resourceTags, systemTags);
    ghost var m := resourceTags.m;
    ghost var rest;
    ghost var before := r.tags;
    r.tags, rest := FromACKTags(resourceTags, tagKeyOrder);
    NothingLeft(before, systemTags, rest, r.tags);
  }

  ghost predicate Mirrored(desired: seq<Tag>, latest: seq<Tag>, rest: seq<string>, out: seq<Tag>) {
    WrittenWith(MapOf(desired) + AwsPart(MapOf(latest)), KeyOrder(desired), rest, out)
  }

  /** `desired` gets the tags that AWS set on `latest`. */
  method MirrorAWSTags(desired: Resource?, latest: Resource?) returns (ghost rest: seq<string>)
    requires desired != latest
    modifies desired
    ensures desired != null && latest == null ==> desired.tags == old(desired.tags)
    ensures desired != null && latest != null ==>
      Mirrored(old(desired.tags), latest.tags, rest, desired.tags)
  {
    rest := [];
    if desired == null || latest == null {
      return;
    }
    var desiredTags, desiredTagKeyOrder := ConvertToOrderedACKTags(desired.tags);
    var latestTags, _ := ConvertToOrderedACKTags(latest.tags);
    SyncAWSTags(desiredTags, latestTags);
    desired.tags, rest := FromACKTags(desiredTags, desiredTagKeyOrder);
  }

  // ----- what they keep -----

  lemma {:induction false} FirstsGrow(few: set<string>, many: set<string>, order: seq<string>)
    requires few <= many && Elems(order) * many <= few
    ensures Firsts(many, order) == Firsts(few, order)
  {
    if order != [] {
      var k, rest := order[0], order[1..];
      assert order == [k] + rest;
      assert Elems(order) == {k} + Elems(rest);
      if k in few {
        FirstsGrow(few - {k}, many - {k}, rest);
      } else {
        FirstsGrow(few, many, rest);
      }
    }
  }

  /** The default tags come after the tags that were there, none of which changes its value or
      its place. */
  lemma {:induction false} EnsureKeepsExisting(tags: seq<Tag>, defaultTags: TagMap, rest: seq<string>, out: seq<Tag>)
    requires WrittenWith(defaultTags + MapOf(tags), KeyOrder(tags), rest, out)
    ensures IsOrder(rest, defaultTags.Keys - MapOf(tags).Keys)
    ensures forall k :: k in rest ==> k in defaultTags
    ensures out == Normal(tags) + TagsOf(defaultTags, rest)
  {
    var m := defaultTags + MapOf(tags);
    KeysOfList(tags);
    FirstsGrow(MapOf(tags).Keys, m.Keys, KeyOrder(tags));
    assert m.Keys - Elems(KeyOrder(tags)) == defaultTags.Keys - MapOf(tags).Keys;
    assert forall k :: k in rest <==> k in Elems(rest);
  }

  /** A list with distinct keys and no missing key or value stays as it is in front of them. */
  lemma {:induction false} EnsureKeepsCleanList(tags: seq<Tag>, defaultTags: TagMap, rest: seq<string>, out: seq<Tag>)
    requires WrittenWith(defaultTags + MapOf(tags), KeyOrder(tags), rest, out)
    requires Clean(tags)
    ensures tags <= out
  {
    EnsureKeepsExisting(tags, defaultTags, rest, out);
    ListRoundTrip(tags);
  }

  lemma {:induction false} FirstsNone(keys: set<string>, order: seq<string>)
    requires Elems(order) !! keys
    ensures Firsts(keys, order) == []
  {
    if order != [] {
      assert order == [order[0]] + order[1..];
      assert order[0] in Elems(order);
      assert Elems(order[1..]) <= Elems(order);
      FirstsNone(keys, order[1..]);
    }
  }

  lemma {:induction false} FirstsOfFirsts(keys: set<string>, many: set<string>, order: seq<string>, rest: seq<string>)
    requires keys <= many * Elems(order) && Elems(rest) !! keys
    ensures Firsts(keys, Firsts(many, order) + rest) == Firsts(keys, order)
  {
    if order == [] {
      FirstsNone(keys, rest);
      assert Firsts(many, order) + rest == rest;
    } else {
      var k, tail := order[0], order[1..];
      assert order == [k] + tail;
      assert Elems(order) == {k} + Elems(tail);
      if k in many {
        var f := Firsts(many - {k}, tail);
        assert ([k] + f) + rest == [k] + (f + rest);
        assert ([k] + (f + rest))[1..] == f + rest;
        FirstsOfFirsts(keys - {k}, many - {k}, tail, rest);
        assert k !in keys ==> keys - {k} == keys;
      } else {
        FirstsOfFirsts(keys, many, tail, rest);
      }
    }
  }

  /** Filtering sees only what is not a system tag: two lists written in the same order that agree
      there are filtered alike. */
  lemma {:induction false} FilterIgnoresSystemTags(tags: seq<Tag>, m: TagMap, systemTags: seq<string>,
                                                   rest: seq<string>, out: seq<Tag>)
    requires WrittenWith(m, KeyOrder(tags), rest, out)
    requires Without(m, systemTags) == Without(MapOf(tags), systemTags)
    ensures Filtered(out, systemTags) == Filtered(tags, systemTags)
  {
    var kept := Without(m, systemTags);
    KeysOfList(tags);
    MapRoundTrip(m, KeyOrder(tags), rest, out);
    MapOfTagsOf(m, Firsts(m.Keys, KeyOrder(tags)) + rest);
    assert kept.Keys <= MapOf(tags).Keys;
    FirstsOfFirsts(kept.Keys, m.Keys, KeyOrder(tags), rest);
  }

  /** Filtering again changes nothing. */
  lemma {:induction false} FilterIdempotent(tags: seq<Tag>, systemTags: seq<string>)
    ensures Filtered(Filtered(tags, systemTags), systemTags) == Filtered(tags, systemTags)
  {
    var m := Without(MapOf(tags), systemTags);
    KeysOfList(tags);
    assert m.Keys - Elems(KeyOrder(tags)) == {};
    assert Firsts(m.Keys, KeyOrder(tags)) + [] == Firsts(m.Keys, KeyOrder(tags));
    assert WrittenWith(m, KeyOrder(tags), [], Filtered(tags, systemTags));
    assert Without(m, systemTags) == m;
    FilterIgnoresSystemTags(tags, m, systemTags, [], Filtered(tags, systemTags));
  }

  lemma {:induction false} FilteredMap(tags: seq<Tag>, systemTags: seq<string>)
    ensures MapOf(Filtered(tags, systemTags)) == Without(MapOf(tags), systemTags)
  {
    var m := Without(MapOf(tags), systemTags);
    KeysOfList(tags);
    FirstsKeys(m.Keys, KeyOrder(tags));
    MapOfTagsOf(m, Firsts(m.Keys, KeyOrder(tags)));
    assert m.Keys * Elems(KeyOrder(tags)) == m.Keys;
  }

  /** Key by key: filtering leaves what neither starts with "aws:" nor is listed, with its value. */
  lemma {:induction false} FilteredByKey(tags: seq<Tag>, systemTags: seq<string>, k: string)
    ensures k in MapOf(Filtered(tags, systemTags)) <==> k in MapOf(tags) && !("aws:" <= k) && k !in systemTags
    ensures k in MapOf(Filtered(tags, systemTags)) ==> MapOf(Filtered(tags, systemTags))[k] == MapOf(tags)[k]
  {
    FilteredMap(tags, systemTags);
  }

  /** Filtering undoes the adding of default tags exactly when each of their keys is a system key
      or was there before. */
  lemma {:induction false} FilterUndoesEnsure(tags: seq<Tag>, defaultTags: TagMap, systemTags: seq<string>,
                                              rest: seq<string>, out: seq<Tag>)
    requires WrittenWith(defaultTags + MapOf(tags), KeyOrder(tags), rest, out)
    ensures Filtered(out, systemTags) == Filtered(tags, systemTags) <==>
      forall k :: k in defaultTags ==> IsSystem(k, systemTags) || k in MapOf(tags)
  {
    var m := defaultTags + MapOf(tags);
    if forall k :: k in defaultTags ==> IsSystem(k, systemTags) || k in MapOf(tags) {
      assert Without(m, systemTags) == Without(MapOf(tags), systemTags);
      FilterIgnoresSystemTags(tags, m, systemTags, rest, out);
    } else {
      var k :| k in defaultTags && !IsSystem(k, systemTags) && k !in MapOf(tags);
      MapRoundTrip(m, KeyOrder(tags), rest, out);
      FilteredMap(out, systemTags);
      FilteredMap(tags, systemTags);
      assert k in Without(m, systemTags) && k !in Without(MapOf(tags), systemTags);
    }
  }

  /** One default tag with a key of its own is enough for it to stay. */
  lemma {:induction false} FilterLeavesDefault(rest: seq<string>, out: seq<Tag>)
    requires WrittenWith(map["team" := "dns"] + MapOf([]), KeyOrder([]), rest, out)
    ensures Filtered(out, []) != Filtered([], [])
  {
    FilterUndoesEnsure([], map["team" := "dns"], [], rest, out);
    assert "team" in map["team" := "dns"] && "team"[0] != AWS_PREFIX[0];
  }

  /** Mirroring leaves the tags that are not AWS's own as they were, values and order, and gives
      the rest of the desired tags exactly the AWS tags of the latest resource, besides those it
      had itself. */
  lemma {:induction false} MirrorKeepsOthers(desired: seq<Tag>, latest: seq<Tag>, rest: seq<string>, out: seq<Tag>)
    requires Mirrored(desired, latest, rest, out)
    ensures Filtered(out, []) == Filtered(desired, [])
    ensures AwsPart(MapOf(out)) == AwsPart(MapOf(desired)) + AwsPart(MapOf(latest))
  {
    var m := MapOf(desired) + AwsPart(MapOf(latest));
    assert Without(m, []) == Without(MapOf(desired), []);
    FilterIgnoresSystemTags(desired, m, [], rest, out);
    MapRoundTrip(m, KeyOrder(desired), rest, out);
  }

  /** Key by key: mirroring gives every "aws:" key of the latest resource its value, and leaves the
      other keys of the desired one. */
  lemma {:induction false} MirroredByKey(desired: seq<Tag>, latest: seq<Tag>, rest: seq<string>, out: seq<Tag>,
                                         k: string)
    requires Mirrored(desired, latest, rest, out)
    ensures k in MapOf(out) <==> k in MapOf(desired) || (k in MapOf(latest) && "aws:" <= k)
    ensures k in MapOf(out) ==>
      MapOf(out)[k] == if k in MapOf(latest) && "aws:" <= k then MapOf(latest)[k] else MapOf(desired)[k]
  {
    MapRoundTrip(MapOf(desired) + AwsPart(MapOf(latest)), KeyOrder(desired), rest, out);
  }
}
