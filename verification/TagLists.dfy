/** pkg/resource/resolver_endpoint/tags.go: tags as a list in the custom resource and as a map
    in the controller. The maps are changed in place, so each is an object here. */
module TagLists {
  import opened Wrappers
  import opened Orders

  datatype Tag = Tag(key: Option<string>, value: Option<string>)

  type TagMap = map<string, string>

  /** A Go map of tags, which its holder may change under everyone else who holds it. */
  class AckTags {
    var m: TagMap

    constructor (m: TagMap)
      ensures this.m == m
    {
      this.m := m;
    }
  }

  // ----- what a list means -----

  ghost function ValueOf(t: Tag): string {
    if t.value.Some? then t.value.value else ""
  }

  /** A later tag with the same key overrides an earlier one; tags without a key are dropped. */
  ghost function MapOf(tags: seq<Tag>): TagMap {
    if tags == [] then map[] else
      var t, m := tags[|tags| - 1], MapOf(tags[..|tags| - 1]);
      if t.key.Some? then m[t.key.value := ValueOf(t)] else m
  }

  ghost function KeyOrder(tags: seq<Tag>): seq<string> {
    if tags == [] then [] else
      var t := tags[|tags| - 1];
      KeyOrder(tags[..|tags| - 1]) + if t.key.Some? then [t.key.value] else []
  }

  method ConvertToOrderedACKTags(tags: seq<Tag>) returns (result: AckTags, keyOrder: seq<string>)
    ensures fresh(result) && result.m == MapOf(tags) && keyOrder == KeyOrder(tags)
  {
    result := new AckTags(map[]);
    keyOrder := [];
    if |tags| == 0 {
      return;
    }
    for i := 0 to |tags|
      invariant fresh(result) && result.m == MapOf(tags[..i]) && keyOrder == KeyOrder(tags[..i])
    {
      assert tags[..i + 1][..i] == tags[..i];
      var t := tags[i];
      if t.key.Some? {
        keyOrder := keyOrder + [t.key.value];
        if t.value.Some? {
          result.m := result.m[t.key.value := t.value.value];
        } else {
          result.m := result.m[t.key.value := ""];
        }
      }
    }
    assert tags[..|tags|] == tags;
  }

  // ----- the way back -----

  ghost function TagsOf(m: TagMap, keys: seq<string>): (tags: seq<Tag>)
    requires forall k :: k in keys ==> k in m
    ensures |tags| == |keys|
    ensures forall i :: 0 <= i < |keys| ==> keys[i] in m && tags[i] == Tag(Some(keys[i]), Some(m[keys[i]]))
  {
    seq(|keys|, i requires 0 <= i < |keys| => (assert keys[i] in keys; Tag(Some(keys[i]), Some(m[keys[i]]))))
  }

  /** The given keys in the order in which they first appear. */
  ghost function Firsts(keys: set<string>, order: seq<string>): (f: seq<string>)
    ensures forall k :: k in f ==> k in keys
  {
    if order == [] then []
    else if order[0] in keys then [order[0]] + Firsts(keys - {order[0]}, order[1..])
    else Firsts(keys, order[1..])
  }

  lemma {:induction false} FirstsKeys(keys: set<string>, order: seq<string>)
    ensures NoDup(Firsts(keys, order))
    ensures Elems(Firsts(keys, order)) == keys * Elems(order)
  {
    if order != [] {
      var k, rest := order[0], order[1..];
      assert order == [k] + rest;
      assert Elems(order) == {k} + Elems(rest);
      if k in keys {
        FirstsKeys(keys - {k}, rest);
        var f := Firsts(keys - {k}, rest);
        assert k !in Elems(f);
        assert Elems([k] + f) == {k} + Elems(f);
      } else {
        FirstsKeys(keys, rest);
      }
    }
  }

  /** `out` lists the whole map: first the keys of `order`, then the others as `rest` has them. */
  ghost predicate WrittenWith(m: TagMap, order: seq<string>, rest: seq<string>, out: seq<Tag>) {
    && IsOrder(rest, m.Keys - Elems(order))
    && (forall k :: k in rest ==> k in m)
    && out == TagsOf(m, Firsts(m.Keys, order) + rest)
  }

  /** Takes the listed keys out of the map while it writes them. */
  method FromACKTags(tags: AckTags, keyOrder: seq<string>) returns (result: seq<Tag>, ghost rest: seq<string>)
    modifies tags
    ensures WrittenWith(old(tags.m), keyOrder, rest, result)
    ensures tags.m == old(tags.m) - Elems(keyOrder)
  {
    ghost var m := tags.m;
    ghost var seen: seq<string> := [];
    result := [];
    for i := 0 to |keyOrder|
      invariant tags.m == m - Elems(keyOrder[..i])
      invariant forall k :: k in seen ==> k in m
      invariant result == TagsOf(m, seen)
      invariant Firsts(m.Keys, keyOrder) == seen + Firsts(tags.m.Keys, keyOrder[i..])
    {
      var k := keyOrder[i];
      assert keyOrder[..i + 1] == keyOrder[..i] + [k];
      ElemsSnoc(keyOrder[..i], k);
      assert keyOrder[i..][0] == k && keyOrder[i..][1..] == keyOrder[i + 1..];
      if k in tags.m {
        result := result + [Tag(Some(k), Some(tags.m[k]))];
        assert seen + ([k] + Firsts(tags.m.Keys - {k}, keyOrder[i + 1..]))
            == (seen + [k]) + Firsts(tags.m.Keys - {k}, keyOrder[i + 1..]);
        seen := seen + [k];
        assert (tags.m - {k}).Keys == tags.m.Keys - {k};
        tags.m := tags.m - {k};
      }
    }
    assert keyOrder[..|keyOrder|] == keyOrder && keyOrder[|keyOrder|..] == [];
    var others := RangeOrder(tags.m.Keys);
    assert forall k :: k in others ==> k in Elems(others);
    rest := others;
    for i := 0 to |others|
      invariant forall k :: k in seen + others[..i] ==> k in m
      invariant result == TagsOf(m, seen + others[..i])
    {
      assert others[i] in others;
      result := result + [Tag(Some(others[i]), Some(tags.m[others[i]]))];
      assert seen + others[..i + 1] == (seen + others[..i]) + [others[i]];
    }
    assert others[..|others|] == others;
  }

  // ----- round trips -----

  lemma {:induction false} MapOfTagsOf(m: TagMap, keys: seq<string>)
    requires forall k :: k in keys ==> k in m
    ensures MapOf(TagsOf(m, keys)) == m - (m.Keys - Elems(keys))
    ensures KeyOrder(TagsOf(m, keys)) == keys
  {
    if keys != [] {
      var n := |keys| - 1;
      assert keys == keys[..n] + [keys[n]];
      ElemsSnoc(keys[..n], keys[n]);
      assert TagsOf(m, keys)[..n] == TagsOf(m, keys[..n]);
      MapOfTagsOf(m, keys[..n]);
      assert keys[n] in keys;
    }
  }

  /** Writing a map in any order and reading the list back gives the map. */
  lemma {:induction false} MapRoundTrip(m: TagMap, order: seq<string>, rest: seq<string>, out: seq<Tag>)
    requires WrittenWith(m, order, rest, out)
    ensures MapOf(out) == m
  {
    var firsts := Firsts(m.Keys, order);
    FirstsKeys(m.Keys, order);
    assert Elems(firsts + rest) == Elems(firsts) + Elems(rest);
    MapOfTagsOf(m, firsts + rest);
  }

  lemma {:induction false} KeysOfList(tags: seq<Tag>)
    ensures MapOf(tags).Keys == Elems(KeyOrder(tags))
  {
    if tags != [] {
      var init, t := tags[..|tags| - 1], tags[|tags| - 1];
      KeysOfList(init);
      if t.key.Some? {
        ElemsSnoc(KeyOrder(init), t.key.value);
      } else {
        assert KeyOrder(init) + [] == KeyOrder(init);
      }
    }
  }

  /** What a list becomes on its way through the map. */
  ghost function Normal(tags: seq<Tag>): seq<Tag> {
    TagsOf(MapOf(tags), Firsts(MapOf(tags).Keys, KeyOrder(tags)))
  }

  /** A list read and written again is not subject to the order of the map. */
  lemma {:induction false} ListThroughMap(tags: seq<Tag>, rest: seq<string>, out: seq<Tag>)
    requires WrittenWith(MapOf(tags), KeyOrder(tags), rest, out)
    ensures out == Normal(tags)
  {
    KeysOfList(tags);
    OrderLength(rest, {});
    var firsts := Firsts(MapOf(tags).Keys, KeyOrder(tags));
    assert firsts + rest == firsts;
  }

  /** Distinct keys, and neither key nor value missing. */
  ghost predicate Clean(tags: seq<Tag>) {
    && (forall t :: t in tags ==> t.key.Some? && t.value.Some?)
    && forall i, j :: 0 <= i < j < |tags| ==> tags[i].key != tags[j].key
  }

  lemma {:induction false} FirstsSelf(order: seq<string>)
    requires NoDup(order)
    ensures Firsts(Elems(order), order) == order
  {
    if order != [] {
      var k, rest := order[0], order[1..];
      assert order == [k] + rest;
      assert k !in rest;
      assert Elems(order) == {k} + Elems(rest);
      assert Elems(order) - {k} == Elems(rest);
      FirstsSelf(rest);
    }
  }

  lemma {:induction false} CleanKeys(tags: seq<Tag>)
    requires Clean(tags)
    ensures |KeyOrder(tags)| == |tags|
    ensures forall i :: 0 <= i < |tags| ==> tags[i].key == Some(KeyOrder(tags)[i])
    ensures forall i :: 0 <= i < |tags| ==> tags[i].key.value in MapOf(tags)
    ensures forall i :: 0 <= i < |tags| ==> tags[i].value == Some(MapOf(tags)[tags[i].key.value])
  {
    if tags != [] {
      var init, t := tags[..|tags| - 1], tags[|tags| - 1];
      assert forall x :: x in init ==> x in tags;
      assert t in tags;
      CleanKeys(init);
    }
  }

  /** A list with distinct keys and no missing key or value comes back as it was. */
  lemma {:induction false} ListRoundTrip(tags: seq<Tag>)
    requires Clean(tags)
    ensures Normal(tags) == tags
  {
    CleanKeys(tags);
    KeysOfList(tags);
    assert NoDup(KeyOrder(tags));
    FirstsSelf(KeyOrder(tags));
  }

  lemma {:induction false} KeyOrderHas(tags: seq<Tag>, k: string)
    ensures k in KeyOrder(tags) <==> exists i :: 0 <= i < |tags| && tags[i].key == Some(k)
  {
    if tags != [] {
      var n := |tags| - 1;
      KeyOrderHas(tags[..n], k);
      if exists i :: 0 <= i < |tags| && tags[i].key == Some(k) {
        var i :| 0 <= i < |tags| && tags[i].key == Some(k);
        assert i < n ==> tags[..n][i].key == Some(k);
      }
      if exists i :: 0 <= i < n && tags[..n][i].key == Some(k) {
        var i :| 0 <= i < n && tags[..n][i].key == Some(k);
        assert tags[i].key == Some(k);
      }
    }
  }

  /** Any list keeps each of its keys once ... */
  lemma {:induction false} NormalKeys(tags: seq<Tag>, k: string)
    ensures NoDup(KeyOrder(Normal(tags)))
    ensures k in KeyOrder(Normal(tags)) <==> exists i :: 0 <= i < |tags| && tags[i].key == Some(k)
  {
    var firsts := Firsts(MapOf(tags).Keys, KeyOrder(tags));
    FirstsKeys(MapOf(tags).Keys, KeyOrder(tags));
    KeysOfList(tags);
    MapOfTagsOf(MapOf(tags), firsts);
    assert k in firsts <==> k in Elems(firsts);
    assert k in KeyOrder(tags) <==> k in Elems(KeyOrder(tags));
    KeyOrderHas(tags, k);
  }

  /** ... with the value of its last tag, a missing value having become empty ... */
  lemma {:induction false} LastValueWins(tags: seq<Tag>, i: nat)
    requires i < |tags| && tags[i].key.Some?
    requires forall j :: i < j < |tags| ==> tags[j].key != tags[i].key
    ensures tags[i].key.value in MapOf(tags)
    ensures MapOf(tags)[tags[i].key.value] == if tags[i].value.Some? then tags[i].value.value else ""
  {
    if i < |tags| - 1 {
      LastValueWins(tags[..|tags| - 1], i);
    }
  }

  /** ... in the order of their first appearance: of two keys kept, the one that is written first
      appears in the original order before any appearance of the other. */
  lemma {:induction false} FirstsInOrder(keys: set<string>, order: seq<string>, i: nat, j: nat) returns (p: nat)
    requires i < j < |Firsts(keys, order)|
    ensures p < |order| && order[p] == Firsts(keys, order)[i] && Firsts(keys, order)[j] !in order[..p + 1]
  {
    var k, rest := order[0], order[1..];
    FirstsKeys(keys, order);
    if k in keys {
      if i == 0 {
        p := 0;
      } else {
        var q := FirstsInOrder(keys - {k}, rest, i - 1, j - 1);
        p := q + 1;
        assert order[..p + 1] == [k] + rest[..q + 1];
      }
    } else {
      var q := FirstsInOrder(keys, rest, i, j);
      p := q + 1;
      assert order[..p + 1] == [k] + rest[..q + 1];
      assert Firsts(keys, order)[j] in Firsts(keys, order);
    }
  }
}
