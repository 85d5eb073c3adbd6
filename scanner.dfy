/**
 * What the prefix scans of a string compute, stated on a dictionary and a set of strings alone:
 * the hits of `_scan` (every key that is a prefix of the string, shortest first), the longest
 * such key (`item`), and how far the walk gets (the longest structural path along the string).
 */
module Scanner {
  import opened Wrappers
  import opened Nodes

  /**
   * The scan of `s` against `m` up to (not including) length `hi`: `(i, m[s[..i]])` for every
   * `i < hi` such that `s[..i]` is a key, in increasing `i`.
   */
  function Hits<V>(m: map<string, V>, s: string, hi: nat): seq<(nat, V)>
    requires hi <= |s| + 1
  {
    if hi == 0 then []
    else Hits(m, s, hi - 1) + (if s[..hi - 1] in m then [(hi - 1, m[s[..hi - 1]])] else [])
  }

  /** Every hit is a key below `hi` with its value. */
  lemma {:induction false} HitsSound<V>(m: map<string, V>, s: string, hi: nat)
    requires hi <= |s| + 1
    ensures forall x :: x in Hits(m, s, hi) ==> x.0 < hi && s[..x.0] in m && m[s[..x.0]] == x.1
  {
    if hi > 0 {
      HitsSound(m, s, hi - 1);
    }
  }

  /** Every key that is a prefix of `s` shorter than `hi` is a hit. */
  lemma {:induction false} HitsComplete<V>(m: map<string, V>, s: string, hi: nat)
    requires hi <= |s| + 1
    ensures forall i :: 0 <= i < hi && s[..i] in m ==> (i, m[s[..i]]) in Hits(m, s, hi)
  {
    if hi > 0 {
      HitsComplete(m, s, hi - 1);
    }
  }

  /** The hits come shortest first, each length once. */
  lemma {:induction false} HitsSorted<V>(m: map<string, V>, s: string, hi: nat)
    requires hi <= |s| + 1
    ensures forall a, b :: 0 <= a < b < |Hits(m, s, hi)| ==> Hits(m, s, hi)[a].0 < Hits(m, s, hi)[b].0
  {
    if hi > 0 {
      HitsSorted(m, s, hi - 1);
      HitsSound(m, s, hi - 1);
      var r := Hits(m, s, hi - 1);
      assert forall a :: 0 <= a < |r| ==> r[a] in r;
    }
  }

  /** Lengths at which no key ends add no hits. */
  lemma {:induction false} HitsSkip<V>(m: map<string, V>, s: string, lo: nat, hi: nat)
    requires lo <= hi <= |s| + 1
    requires forall i :: lo <= i < hi ==> s[..i] !in m
    ensures Hits(m, s, hi) == Hits(m, s, lo)
    decreases hi
  {
    if lo < hi {
      HitsSkip(m, s, lo, hi - 1);
    }
  }

  /** The largest `i <= hi` such that `s[..i]` is in `keys`, or `None`. */
  function Longest(keys: set<string>, s: string, hi: nat): (r: Option<nat>)
    requires hi <= |s|
    ensures r.Some? ==> r.value <= hi && s[..r.value] in keys
    ensures r.Some? ==> forall i :: r.value < i <= hi ==> s[..i] !in keys
    ensures r.None? ==> forall i :: 0 <= i <= hi ==> s[..i] !in keys
  {
    if s[..hi] in keys then Some(hi) else if hi == 0 then None else Longest(keys, s, hi - 1)
  }

  /** Lengths at which no key ends do not change the longest match. */
  lemma {:induction false} LongestSkip(keys: set<string>, s: string, lo: nat, hi: nat)
    requires lo <= hi <= |s|
    requires forall i :: lo < i <= hi ==> s[..i] !in keys
    ensures Longest(keys, s, hi) == Longest(keys, s, lo)
    decreases hi
  {
    if lo < hi {
      LongestSkip(keys, s, lo, hi - 1);
    }
  }

  /** `Longest` up to `|s|` picks the longest key that is a prefix of `s`, or reports that there is none. */
  lemma LongestKey(keys: set<string>, s: string)
    ensures Longest(keys, s, |s|).Some? ==> forall k :: k in keys && k <= s ==> |k| <= Longest(keys, s, |s|).value
    ensures Longest(keys, s, |s|).None? <==> forall k :: k in keys ==> !(k <= s)
  {
    forall k | k in keys && k <= s ensures Longest(keys, s, |s|).Some? && |k| <= Longest(keys, s, |s|).value {
      assert s[..|k|] == k;
    }
  }

  /**
   * How far the `_find` walk along `s` gets from `n`: the longest prefix of `s` that is a path of
   * the branch (the empty prefix always is).
   */
  ghost function Reach<V>(n: Node<V>, s: string): (r: nat)
    ensures r <= |s| && s[..r] in Paths(n)
    ensures forall i :: r < i <= |s| ==> s[..i] !in Paths(n)
  {
    SlotsRoot(n);
    assert s[..0] == [];
    Longest(Paths(n), s, |s|).value
  }

  /** The trie for the keys `a`, `abc` and `abd`, holding `x`, `y` and `z`. */
  function ThreeKeys<V>(x: V, y: V, z: V): Node<V>
  {
    Node(None, [Edge("a", Node(Some(x), [Edge("b", Node(None,
      [Edge("c", Node(Some(y), [])), Edge("d", Node(Some(z), []))]))]))])
  }

  /**
   * In `ThreeKeys` the walk of `item('abx')` passes the split node at `ab` after the last terminal
   * node `a`: it ends two symbols in, while the longest stored key that is a prefix is `a`.
   */
  lemma WalkEndsPastLongestKey<V>(x: V, y: V, z: V)
    ensures Reach(ThreeKeys(x, y, z), "abx") == 2
    ensures Longest(Contents(ThreeKeys(x, y, z)).Keys, "abx", 3) == Some(1)
  {
    var n := ThreeKeys(x, y, z);
    var a := n.edges[0].child;
    var b := a.edges[0].child;
    var s := "abx";
    assert s[..1] == "a" && s[..2] == "ab" && s[..3] == "abx";
    ThreeKeysAt(x, y, z);
    assert s[..2] in Paths(n) && s[..3] !in Paths(n);
    assert Reach(n, s) == 2;
    assert s[..3] !in Contents(n).Keys && s[..2] !in Contents(n).Keys && s[..1] in Contents(n).Keys;
  }

  lemma ThreeKeysAt<V>(x: V, y: V, z: V)
    ensures var n := ThreeKeys(x, y, z);
      && "ab" in Paths(n) && Stored(n, "ab") == None
      && "abx" !in Paths(n) && Stored(n, "abx") == None
      && Stored(n, "a") == Some(x)
  {
    var n := ThreeKeys(x, y, z);
    var a := n.edges[0].child;
    var b := a.edges[0].child;
    assert "a"[1..] == [] && "ab"[1..] == "b" && "abx"[1..] == "bx" && "b"[1..] == [] && "bx"[1..] == "x";
    assert Lead(n.edges, 'a') == Some(0);
    assert Lead(a.edges, 'b') == Some(0);
    assert Lead(b.edges, 'x') == None;
    StoredLead(n, "a");
    StoredLead(n, "ab");
    StoredLead(n, "abx");
    StoredLead(a, "b");
    StoredLead(a, "bx");
    StoredLead(b, "x");
    SlotsRoot(a);
    SlotsRoot(b);
  }
}
