/**
 * The recursive traversals `_count`, `_items`, `_keys` and `_values`. They visit a branch in
 * pre-order: a node's own value first, then its children in edge insertion order. The joined
 * `accu` list of `_items` is the string `p` passed down.
 */
module Enumerator {
  import opened Wrappers
  import opened Nodes

  /** `_count`: the number of terminal nodes in the branch. */
  function Count<V>(n: Node<V>): nat
    decreases n, 0
  {
    (if n.value.Some? then 1 else 0) + CountBelow(n.edges)
  }

  function CountBelow<V>(es: seq<Edge<V>>): nat
    decreases es, 1
  {
    if es == [] then 0 else Count(es[0].child) + CountBelow(es[1..])
  }

  /** `_items`: every terminal node's path, spelled after `p`, with its value. */
  function Items<V>(n: Node<V>, p: string): seq<(string, V)>
    decreases n, 0
  {
    (if n.value.Some? then [(p, n.value.value)] else []) + ItemsBelow(n.edges, p)
  }

  function ItemsBelow<V>(es: seq<Edge<V>>, p: string): seq<(string, V)>
    decreases es, 1
  {
    if es == [] then [] else Items(es[0].child, p + es[0].text) + ItemsBelow(es[1..], p)
  }

  /** `_values`: the values of the terminal nodes, in the same order as `_items`. */
  function Values<V>(n: Node<V>): seq<V>
    decreases n, 0
  {
    (if n.value.Some? then [n.value.value] else []) + ValuesBelow(n.edges)
  }

  function ValuesBelow<V>(es: seq<Edge<V>>): seq<V>
    decreases es, 1
  {
    if es == [] then [] else Values(es[0].child) + ValuesBelow(es[1..])
  }

  function Firsts<K, V>(items: seq<(K, V)>): seq<K>
  {
    seq(|items|, i requires 0 <= i < |items| => items[i].0)
  }

  function Seconds<K, V>(items: seq<(K, V)>): seq<V>
  {
    seq(|items|, i requires 0 <= i < |items| => items[i].1)
  }

  /** `_keys`: the keys of `_items`. */
  function Keys<V>(n: Node<V>, p: string): seq<string>
  {
    Firsts(Items(n, p))
  }

  /** No key occurs twice. */
  ghost predicate DistinctKeys<K, V>(items: seq<(K, V)>)
  {
    forall i, j :: 0 <= i < j < |items| ==> items[i].0 != items[j].0
  }

  /** The keys of a sequence of pairs, as a set. */
  function KeySet<K, V>(items: seq<(K, V)>): set<K>
  {
    set i | 0 <= i < |items| :: items[i].0
  }

  lemma {:induction false} BelowFrom<V>(es: seq<Edge<V>>, p: string, x: (string, V))
    requires x in ItemsBelow(es, p)
    ensures exists i :: 0 <= i < |es| && x in Items(es[i].child, p + es[i].text)
  {
    if x !in Items(es[0].child, p + es[0].text) {
      BelowFrom(es[1..], p, x);
      var i :| 0 <= i < |es[1..]| && x in Items(es[1..][i].child, p + es[1..][i].text);
      assert es[1..][i] == es[i + 1];
    }
  }

  lemma {:induction false} BelowHas<V>(es: seq<Edge<V>>, i: nat, p: string, x: (string, V))
    requires i < |es| && x in Items(es[i].child, p + es[i].text)
    ensures x in ItemsBelow(es, p)
  {
    if i > 0 {
      assert es[1..][i - 1] == es[i];
      BelowHas(es[1..], i - 1, p, x);
    }
  }

  /** Every key `_items` yields starts with the accumulated prefix. */
  lemma {:induction false} ItemsPrefix<V>(n: Node<V>, p: string, x: (string, V))
    requires x in Items(n, p)
    ensures p <= x.0
    decreases n
  {
    if x in ItemsBelow(n.edges, p) {
      BelowFrom(n.edges, p, x);
      var i :| 0 <= i < |n.edges| && x in Items(n.edges[i].child, p + n.edges[i].text);
      ItemsPrefix(n.edges[i].child, p + n.edges[i].text, x);
    }
  }

  /** Every pair `_items` yields is a stored key with its value. */
  lemma {:induction false} ItemsSound<V>(n: Node<V>, p: string, x: (string, V))
    requires Valid(n) && x in Items(n, p)
    ensures p <= x.0 && Stored(n, x.0[|p|..]) == Some(x.1)
    decreases n
  {
    if x in ItemsBelow(n.edges, p) {
      BelowFrom(n.edges, p, x);
      var i :| 0 <= i < |n.edges| && x in Items(n.edges[i].child, p + n.edges[i].text);
      var e := n.edges[i];
      ItemsSound(e.child, p + e.text, x);
      var k := x.0[|p|..];
      assert e.text <= k && k[|e.text|..] == x.0[|p + e.text|..];
      SlotsVia(n, e, k);
    } else {
      assert x == (p, n.value.value);
      SlotsRoot(n);
    }
  }

  /** Every stored key is yielded by `_items`, with its value. */
  lemma {:induction false} ItemsComplete<V>(n: Node<V>, p: string, q: string)
    requires Valid(n) && Stored(n, q).Some?
    ensures (p + q, Stored(n, q).value) in Items(n, p)
    decreases n
  {
    if q == [] {
      SlotsRoot(n);
      assert p + q == p;
    } else {
      StoredLead(n, q);
      var i := Lead(n.edges, q[0]).value;
      var e := n.edges[i];
      var r := q[|e.text|..];
      ItemsComplete(e.child, p + e.text, r);
      assert (p + e.text) + r == p + q;
      BelowHas(n.edges, i, p, (p + q, Stored(n, q).value));
    }
  }

  lemma DistinctConcat<K, V>(a: seq<(K, V)>, b: seq<(K, V)>)
    requires DistinctKeys(a) && DistinctKeys(b)
    requires forall x, y :: x in a && y in b ==> x.0 != y.0
    ensures DistinctKeys(a + b)
  {
    forall i, j | 0 <= i < j < |a + b| ensures (a + b)[i].0 != (a + b)[j].0 {
      if i < |a| && |a| <= j {
        assert (a + b)[i] in a && (a + b)[j] in b;
      }
    }
  }

  /** `_items` yields each key at most once. */
  lemma {:induction false} ItemsDistinct<V>(n: Node<V>, p: string)
    requires Valid(n)
    ensures DistinctKeys(Items(n, p))
    decreases n, 0
  {
    var own: seq<(string, V)> := if n.value.Some? then [(p, n.value.value)] else [];
    BelowDistinct(n.edges, p);
    forall x, y | x in own && y in ItemsBelow(n.edges, p) ensures x.0 != y.0 {
      BelowFrom(n.edges, p, y);
      var i :| 0 <= i < |n.edges| && y in Items(n.edges[i].child, p + n.edges[i].text);
      ItemsPrefix(n.edges[i].child, p + n.edges[i].text, y);
    }
    DistinctConcat(own, ItemsBelow(n.edges, p));
  }

  lemma {:induction false} BelowDistinct<V>(es: seq<Edge<V>>, p: string)
    requires Labels(es) && forall i :: 0 <= i < |es| ==> Valid(es[i].child)
    ensures DistinctKeys(ItemsBelow(es, p))
    decreases es, 1
  {
    if es != [] {
      var head := Items(es[0].child, p + es[0].text);
      var tail := ItemsBelow(es[1..], p);
      ItemsDistinct(es[0].child, p + es[0].text);
      LabelsTail(es);
      assert forall i :: 0 <= i < |es[1..]| ==> es[1..][i] == es[i + 1];
      BelowDistinct(es[1..], p);
      forall x, y | x in head && y in tail ensures x.0 != y.0 {
        ItemsPrefix(es[0].child, p + es[0].text, x);
        BelowFrom(es[1..], p, y);
        var i :| 0 <= i < |es[1..]| && y in Items(es[1..][i].child, p + es[1..][i].text);
        ItemsPrefix(es[1..][i].child, p + es[1..][i].text, y);
        assert x.0[|p|] == es[0].text[0];
        assert y.0[|p|] == es[i + 1].text[0];
      }
      DistinctConcat(head, tail);
    }
  }

  /** `_count` counts exactly the pairs `_items` yields. */
  lemma {:induction false} CountItems<V>(n: Node<V>, p: string)
    ensures Count(n) == |Items(n, p)|
    decreases n, 0
  {
    CountBelowItems(n.edges, p);
  }

  lemma {:induction false} CountBelowItems<V>(es: seq<Edge<V>>, p: string)
    ensures CountBelow(es) == |ItemsBelow(es, p)|
    decreases es, 1
  {
    if es != [] {
      CountItems(es[0].child, p + es[0].text);
      CountBelowItems(es[1..], p);
    }
  }

  lemma {:induction false} DistinctCard<K, V>(items: seq<(K, V)>)
    requires DistinctKeys(items)
    ensures |KeySet(items)| == |items|
  {
    if items != [] {
      var init := items[..|items| - 1];
      var last := items[|items| - 1];
      assert DistinctKeys(init);
      DistinctCard(init);
      assert KeySet(items) == KeySet(init) + {last.0} by {
        forall k | k in KeySet(items) ensures k in KeySet(init) + {last.0} {
          var i :| 0 <= i < |items| && items[i].0 == k;
          if i < |init| {
            assert init[i] == items[i];
          }
        }
        forall k | k in KeySet(init) ensures k in KeySet(items) {
          var i :| 0 <= i < |init| && init[i].0 == k;
          assert items[i] == init[i];
        }
      }
      assert last.0 !in KeySet(init);
    }
  }

  /** `_items` yields exactly the stored pairs below `p`, each key once. */
  lemma ItemsExact<V>(n: Node<V>, p: string)
    requires Valid(n)
    ensures forall x :: x in Items(n, p) <==>
      p <= x.0 && x.0[|p|..] in Contents(n) && Contents(n)[x.0[|p|..]] == x.1
    ensures DistinctKeys(Items(n, p))
  {
    forall x ensures x in Items(n, p) <==>
      p <= x.0 && x.0[|p|..] in Contents(n) && Contents(n)[x.0[|p|..]] == x.1
    {
      if x in Items(n, p) {
        ItemsSound(n, p, x);
      }
      if p <= x.0 && x.0[|p|..] in Contents(n) && Contents(n)[x.0[|p|..]] == x.1 {
        ItemsComplete(n, p, x.0[|p|..]);
        assert p + x.0[|p|..] == x.0;
      }
    }
    ItemsDistinct(n, p);
  }

  /** `len(T)`: the number of terminal nodes is the number of stored keys, the root counting for `""`. */
  lemma CountContents<V>(n: Node<V>)
    requires Valid(n)
    ensures Count(n) == |Contents(n)|
  {
    var e: string := [];
    var items := Items(n, e);
    CountItems(n, e);
    ItemsExact(n, e);
    DistinctCard(items);
    assert KeySet(items) == Contents(n).Keys by {
      forall k | k in Contents(n) ensures k in KeySet(items) {
        ItemsComplete(n, e, k);
        assert e + k == k;
        var x := (k, Contents(n)[k]);
        assert x in items;
        var i :| 0 <= i < |items| && items[i] == x;
        assert items[i].0 == k;
      }
      forall k | k in KeySet(items) ensures k in Contents(n) {
        var i :| 0 <= i < |items| && items[i].0 == k;
        assert items[i] in items;
        assert k[|e|..] == k;
      }
    }
  }

  /** `_values` yields the values of `_items`, in the same order. */
  lemma {:induction false} ValuesItems<V>(n: Node<V>, p: string)
    ensures Values(n) == Seconds(Items(n, p))
    decreases n, 0
  {
    var own: seq<(string, V)> := if n.value.Some? then [(p, n.value.value)] else [];
    ValuesBelowItems(n.edges, p);
    SecondsConcat(own, ItemsBelow(n.edges, p));
  }

  lemma {:induction false} ValuesBelowItems<V>(es: seq<Edge<V>>, p: string)
    ensures ValuesBelow(es) == Seconds(ItemsBelow(es, p))
    decreases es, 1
  {
    if es != [] {
      ValuesItems(es[0].child, p + es[0].text);
      ValuesBelowItems(es[1..], p);
      SecondsConcat(Items(es[0].child, p + es[0].text), ItemsBelow(es[1..], p));
    }
  }

  lemma SecondsConcat<K, V>(a: seq<(K, V)>, b: seq<(K, V)>)
    ensures Seconds(a + b) == Seconds(a) + Seconds(b)
  {
  }
}
