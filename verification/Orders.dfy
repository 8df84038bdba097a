/** Enumerations of finite sets. A `range` over a Go map visits the keys in an unspecified
    order, so a loop over a map is modelled as a loop over an arbitrary enumeration of its keys. */
module Orders {

  ghost predicate NoDup<T>(s: seq<T>) {
    forall i, j :: 0 <= i < j < |s| ==> s[i] != s[j]
  }

  ghost function Elems<T>(s: seq<T>): set<T> {
    set x | x in s
  }

  /** `order` lists every element of `keys` exactly once. */
  ghost predicate IsOrder<T>(order: seq<T>, keys: set<T>) {
    NoDup(order) && Elems(order) == keys
  }

  lemma {:induction false} ElemsSnoc<T>(s: seq<T>, x: T)
    ensures Elems(s + [x]) == Elems(s) + {x}
  {
    var t := s + [x];
    assert t[|s|] == x;
    forall y | y in s ensures y in t {
      var i :| 0 <= i < |s| && s[i] == y;
      assert t[i] == y;
    }
  }

  lemma {:induction false} NoDupSnoc<T>(s: seq<T>, x: T)
    requires NoDup(s)
    ensures x !in s ==> NoDup(s + [x])
  {
  }

  /** The order in which a `range` over a map with these keys visits them: any order at all. */
  method RangeOrder(keys: set<string>) returns (order: seq<string>)
    ensures IsOrder(order, keys)
  {
    order := [];
    var rest := keys;
    while rest != {}
      invariant rest <= keys
      invariant IsOrder(order, keys - rest)
      decreases rest
    {
      var k :| k in rest;
      ElemsSnoc(order, k);
      assert k !in Elems(order);
      order, rest := order + [k], rest - {k};
    }
  }

  lemma {:induction false} OrderLength<T>(order: seq<T>, keys: set<T>)
    requires IsOrder(order, keys)
    ensures |order| == |keys|
  {
    if order == [] {
      assert keys == {};
    } else {
      var n := |order| - 1;
      assert order == order[..n] + [order[n]];
      assert order[n] !in order[..n];
      assert Elems(order[..n]) == keys - {order[n]};
      OrderLength(order[..n], keys - {order[n]});
    }
  }

  lemma {:induction false} SubsetSize<T>(a: set<T>, b: set<T>)
    requires a <= b
    ensures |a| <= |b|
  {
    assert a + (b - a) == b;
  }

  /** Every set has an enumeration. */
  lemma {:induction false} OrderExists<T>(keys: set<T>) returns (order: seq<T>)
    ensures IsOrder(order, keys)
  {
    if keys == {} {
      order := [];
    } else {
      var k :| k in keys;
      var rest := OrderExists(keys - {k});
      ElemsSnoc(rest, k);
      assert k !in Elems(rest);
      order := rest + [k];
    }
  }

  // ----- what an enumeration can show -----

  ghost function Image<K, V>(f: K -> V, order: seq<K>): (list: seq<V>)
    ensures |list| == |order| && forall i :: 0 <= i < |list| ==> list[i] == f(order[i])
  {
    seq(|order|, i requires 0 <= i < |order| => f(order[i]))
  }

  lemma {:induction false} ImageSnoc<K, V>(f: K -> V, order: seq<K>, k: K)
    ensures Image(f, order + [k]) == Image(f, order) + [f(k)]
  {
  }

  lemma {:induction false} DropAt<K>(order: seq<K>, keys: set<K>, i: nat) returns (rest: seq<K>)
    requires IsOrder(order, keys) && i < |order|
    ensures rest == order[..i] + order[i + 1..] && IsOrder(rest, keys - {order[i]}) && order[i] in keys
  {
    rest := order[..i] + order[i + 1..];
    assert order[i] in Elems(order);
    forall k ensures k in Elems(rest) <==> k in keys && k != order[i] {
      if k in keys && k != order[i] {
        assert k in Elems(order);
        var j :| 0 <= j < |order| && order[j] == k;
        assert rest[if j < i then j else j - 1] == k;
      }
      if k in Elems(rest) {
        var j :| 0 <= j < |rest| && rest[j] == k;
        assert order[if j < i then j else j + 1] == k;
        assert k in Elems(order);
      }
    }
  }

  lemma {:induction false} ImageDrop<K, V>(f: K -> V, order: seq<K>, i: nat)
    requires i < |order|
    ensures multiset(Image(f, order)) == multiset(Image(f, order[..i] + order[i + 1..])) + multiset{f(order[i])}
  {
    var list := Image(f, order);
    assert list == list[..i] + [list[i]] + list[i + 1..];
    assert Image(f, order[..i] + order[i + 1..]) == list[..i] + list[i + 1..];
  }

  /** All enumerations of a set show the same values, each as often. */
  lemma {:induction false} SameImages<K, V>(f: K -> V, keys: set<K>, a: seq<K>, b: seq<K>)
    requires IsOrder(a, keys) && IsOrder(b, keys)
    ensures multiset(Image(f, a)) == multiset(Image(f, b))
  {
    OrderLength(a, keys);
    OrderLength(b, keys);
    if a != [] {
      var n := |a| - 1;
      assert a[n] in Elems(a) && a[n] in Elems(b);
      var i :| 0 <= i < |b| && b[i] == a[n];
      var a' := DropAt(a, keys, n);
      var b' := DropAt(b, keys, i);
      SameImages(f, keys - {a[n]}, a', b');
      ImageDrop(f, a, n);
      ImageDrop(f, b, i);
    }
  }

  /** And whatever has these values, each as often, is what some enumeration shows. */
  lemma {:induction false} Arrange<K, V>(f: K -> V, keys: set<K>, order: seq<K>, list: seq<V>) returns (found: seq<K>)
    requires IsOrder(order, keys) && multiset(list) == multiset(Image(f, order))
    ensures IsOrder(found, keys) && Image(f, found) == list
  {
    assert |multiset(list)| == |list| && |multiset(Image(f, order))| == |order|;
    if list == [] {
      found := order;
    } else {
      var n := |list| - 1;
      assert list == list[..n] + [list[n]];
      assert list[n] in multiset(Image(f, order));
      var i :| 0 <= i < |order| && f(order[i]) == list[n];
      var rest := DropAt(order, keys, i);
      ImageDrop(f, order, i);
      assert multiset(list[..n]) == multiset(list) - multiset{list[n]};
      assert multiset(Image(f, rest)) == multiset(Image(f, order)) - multiset{f(order[i])};
      var front := Arrange(f, keys - {order[i]}, rest, list[..n]);
      ElemsSnoc(front, order[i]);
      assert order[i] !in Elems(front);
      found := front + [order[i]];
      ImageSnoc(f, front, order[i]);
    }
  }

  ghost predicate SomeShows<K(!new), V>(f: K -> V, keys: set<K>, list: seq<V>) {
    exists order :: IsOrder(order, keys) && Image(f, order) == list
  }

  ghost predicate AllShow<K(!new), V>(f: K -> V, keys: set<K>, list: seq<V>) {
    forall order :: IsOrder(order, keys) ==> Image(f, order) == list
  }

  ghost predicate AllAlike<V>(list: seq<V>) {
    forall i, j :: 0 <= i < j < |list| ==> list[i] == list[j]
  }

  lemma {:induction false} AlikeFirst<V>(list: seq<V>)
    requires AllAlike(list)
    ensures |list| <= 1 || list[0] == list[1]
  {
  }

  lemma {:induction false} SomeShowsIff<K(!new), V>(f: K -> V, keys: set<K>, order0: seq<K>, list: seq<V>)
    requires IsOrder(order0, keys)
    ensures SomeShows(f, keys, list) <==> multiset(list) == multiset(Image(f, order0))
  {
    if order :| IsOrder(order, keys) && Image(f, order) == list {
      SameImages(f, keys, order, order0);
    }
    if multiset(list) == multiset(Image(f, order0)) {
      var order := Arrange(f, keys, order0, list);
    }
  }

  lemma {:induction false} Swapped<K>(order: seq<K>, keys: set<K>, i: nat, j: nat)
    requires IsOrder(order, keys) && i < j < |order|
    ensures IsOrder(order[i := order[j]][j := order[i]], keys)
  {
    var swapped := order[i := order[j]][j := order[i]];
    forall k ensures k in Elems(swapped) <==> k in Elems(order) {
      if k in Elems(order) {
        var n :| 0 <= n < |order| && order[n] == k;
        assert swapped[if n == i then j else if n == j then i else n] == k;
      }
    }
  }

  lemma {:induction false} AlikeOrders<K(!new), V>(f: K -> V, keys: set<K>, order0: seq<K>)
    requires IsOrder(order0, keys) && AllAlike(Image(f, order0))
    ensures AllShow(f, keys, Image(f, order0))
  {
    forall order | IsOrder(order, keys) ensures Image(f, order) == Image(f, order0) {
      OrderLength(order, keys);
      OrderLength(order0, keys);
      forall i | 0 <= i < |order| ensures f(order[i]) == f(order0[i]) {
        assert order[i] in Elems(order) && order[i] in Elems(order0);
        var j :| 0 <= j < |order0| && order0[j] == order[i];
        assert Image(f, order0)[j] == Image(f, order0)[i];
      }
    }
  }

  /** Every enumeration shows the same list exactly when all its entries are alike. */
  lemma {:induction false} AllShowIff<K(!new), V>(f: K -> V, keys: set<K>, order0: seq<K>, list: seq<V>)
    requires IsOrder(order0, keys)
    ensures AllShow(f, keys, list) <==> multiset(list) == multiset(Image(f, order0)) && AllAlike(list)
  {
    if AllShow(f, keys, list) {
      assert list == Image(f, order0);
      forall i, j | 0 <= i < j < |list| ensures list[i] == list[j] {
        Swapped(order0, keys, i, j);
        assert Image(f, order0[i := order0[j]][j := order0[i]])[i] == f(order0[j]);
      }
    }
    if multiset(list) == multiset(Image(f, order0)) && AllAlike(list) {
      var order := Arrange(f, keys, order0, list);
      AlikeOrders(f, keys, order);
    }
  }
}
