/**
 * The `trie` class of `patricia.py`: a dictionary from strings to values, kept as a PATRICIA
 * trie, with the prefix scans of a text (`keys(S)`, `values(S)`, `items(S)`, `key(S)`,
 * `value(S)`, `item(S)`) and of the keys (`isPrefix(S)`, `iter(S)`).
 *
 * The object holds its branch as the value `root`; the mutators walk down it as the source does
 * and put the changed path back together at the end. Each method is proved against the abstract
 * dictionary `Contents()` and, for the mutators, against the node functions `Insert` and `Unset`.
 */
module Patricia {
  import opened Wrappers
  import opened Nodes
  import opened Enumerator
  import opened Mutator
  import opened Scanner

  /** What a lookup along a text gives: a hit, the caller's default, or `KeyError` with the walked prefix. */
  datatype Match<R, D> = Hit(hit: R) | Fallback(default: D) | Miss(walked: string)

  /** The dictionary a new trie starts from: `""` holds the root value, if one is given. */
  function Initial<V>(value: Option<V>): map<string, V>
  {
    if value.Some? then map[[] := value.value] else map[]
  }

  /** The dictionary after assigning the pairs in order, a later pair overwriting an earlier one. */
  function Assign<V>(m: map<string, V>, pairs: seq<(string, V)>): (r: map<string, V>)
    ensures r.Keys == m.Keys + set x | x in pairs :: x.0
    ensures pairs != [] ==> r[pairs[|pairs| - 1].0] == pairs[|pairs| - 1].1
    decreases |pairs|
  {
    if pairs == [] then m
    else
      var init := pairs[..|pairs| - 1];
      var last := pairs[|pairs| - 1];
      assert pairs == init + [last];
      Assign(m, init)[last.0 := last.1]
  }

  /** The branch after assigning the pairs in order with `__setitem__`. */
  function Build<V>(n: Node<V>, pairs: seq<(string, V)>): Node<V>
    decreases |pairs|
  {
    if pairs == [] then n
    else Insert(Build(n, pairs[..|pairs| - 1]), pairs[|pairs| - 1].0, pairs[|pairs| - 1].1)
  }

  /** `trie(a=x, abc=y, abd=z)` builds `ThreeKeys`: `abc` hangs below `a`, then `abd` splits its label at `b`. */
  lemma BuildThreeKeys<V>(x: V, y: V, z: V)
    ensures Build(Node(None, []), [("a", x), ("abc", y), ("abd", z)]) == ThreeKeys(x, y, z)
  {
    var pairs := [("a", x), ("abc", y), ("abd", z)];
    assert pairs[..2] == [("a", x), ("abc", y)] && pairs[..2][..1] == [("a", x)] && pairs[..2][..1][..0] == [];
    var n: Node<V> := Node(None, []);
    assert Build(n, pairs[..2][..1]) == Insert(n, "a", x);
    assert Build(n, pairs[..2]) == Insert(Insert(n, "a", x), "abc", y);
    BuildAbc(x, y);
    InsertAbd(x, y, z);
  }

  /** After `a` and `abc`: one edge `a` to the terminal node of `a`, with the leaf `bc` below. */
  lemma BuildAbc<V>(x: V, y: V)
    ensures Insert(Insert(Node(None, []), "a", x), "abc", y)
      == Node(None, [Edge("a", Node(Some(x), [Edge("bc", Node(Some(y), []))]))])
  {
    var n1 := Node(None, [Edge("a", Node(Some(x), []))]);
    assert Insert(Node(None, []), "a", x) == n1;
    assert "a" <= "abc" && "abc"[1..] == "bc";
    assert Lead(n1.edges, 'a') == Some(0);
    assert Insert(Node(Some(x), []), "bc", y) == Node(Some(x), [Edge("bc", Node(Some(y), []))]);
  }

  /** Then `abd` meets the label `bc` below `a` and splits it after `b`. */
  lemma InsertAbd<V>(x: V, y: V, z: V)
    ensures Insert(Node(None, [Edge("a", Node(Some(x), [Edge("bc", Node(Some(y), []))]))]), "abd", z)
      == ThreeKeys(x, y, z)
  {
    var leafY: Node<V> := Node(Some(y), []);
    var leafZ: Node<V> := Node(Some(z), []);
    var a := Node(Some(x), [Edge("bc", leafY)]);
    var n2 := Node(None, [Edge("a", a)]);
    assert "a" <= "abd" && "abd"[1..] == "bd";
    assert "bc"[1] == 'c' && "bd"[1] == 'd';
    assert !("bc" <= "bd");
    assert CommonPrefix("bc", "bd") == 1 by {
      CommonPrefixIs("bc", "bd", 1);
    }
    assert "bc"[..1] == "b" && "bc"[1..] == "c" && "bd"[1..] == "d";
    assert Lead(a.edges, 'b') == Some(0);
    assert Lead([Edge("c", leafY)], 'd') == None;
    assert Insert(Node(None, [Edge("c", leafY)]), "d", z) == Node(None, [Edge("c", leafY), Edge("d", leafZ)]);
    assert RemoveAt(a.edges, 0) == [];
    assert Insert(a, "bd", z) == Node(Some(x), [Edge("b", Node(None, [Edge("c", leafY), Edge("d", leafZ)]))]);
    assert Lead(n2.edges, 'a') == Some(0);
  }

  /** A node without edges stands for its own value at `""` and nothing else. */
  lemma SingleContents<V>(value: Option<V>)
    ensures Valid(Node(value, []))
    ensures Contents(Node(value, [])) == Initial(value)
  {
    var n := Node(value, []);
    forall k ensures (k in Contents(n)) == (k in Initial(value))
      && (k in Contents(n) ==> Contents(n)[k] == Initial(value)[k])
    {
      if k == [] {
        SlotsRoot(n);
      } else {
        SlotsNone(n, k);
      }
    }
  }

  /**
   * One round of the loop of `__setitem__` at `node`, with `key[idx:]` still to insert: descend
   * along a whole label, split a label at its longest common prefix with the rest of the key (the
   * split node hangs where the label was, at the end of the edge list), or hang the rest of the
   * key as a new leaf and stay. The path of frames back to the root grows by the node left.
   */
  method SetRound<V>(path: seq<Frame<V>>, node: Node<V>, key: string, idx: nat, value: V)
    returns (path': seq<Frame<V>>, node': Node<V>, idx': nat)
    requires idx < |key| && Valid(node)
    ensures idx' <= |key| && Valid(node')
    ensures Plug(path', Insert(node', key[idx'..], value)) == Plug(path, Insert(node, key[idx..], value))
    ensures idx < idx' || (idx' == idx && Lead(node.edges, key[idx]).None? && Lead(node'.edges, key[idx]).Some?)
  {
    var step := Choose(node.edges, key, idx);
    match step
    case Descend(i) =>
      var e := node.edges[i];
      assert e in node.edges;
      path', node', idx' := path + [Open(node, i)], e.child, idx + |e.text|;
      SetDescend(path, node, key, idx, value, i, path', node', idx');
    case Split(i) =>
      var e := node.edges[i];
      StartsWithRest(key, e.text, idx);
      var pos := SplitPoint(e.text, key[idx..]);
      assert e in node.edges;
      SplitStored(e, pos, []);
      path', node', idx' := path + [Frame(node.value, RemoveAt(node.edges, i), e.text[..pos], [])], SplitNode(e, pos), idx + pos;
      SetSplit(path, node, key, idx, value, i, pos, path', node', idx');
    case NewLeaf =>
      var rest := key[idx..];
      assert rest[0] == key[idx];
      InsertLeafSame(node, rest, value);
      InsertValid(node, rest, value);
      path', node', idx' := path, Insert(node, rest, value), idx;
  }

  /** One round of the `_next` walk of `__delitem__`: the walk invariants carry over to the child. */
  lemma DeleteStep<V>(root: Node<V>, path: seq<Frame<V>>, node: Node<V>, key: string, idx: nat, i: nat)
    requires idx < |key| && Valid(node) && Reached(root, node, key[..idx])
    requires i < |node.edges| && StartsWith(key, node.edges[i].text, idx)
    ensures var t := node.edges[i].text; var child := node.edges[i].child;
      && idx + |t| <= |key| && Valid(child) && Reached(root, child, key[..idx + |t|])
      && Plug(path + [Open(node, i)], Unset(child, key[idx + |t|..])) == Plug(path, Unset(node, key[idx..]))
  {
    ReachedFind(root, node, key, idx, i);
    DeleteDescend(path, node, key, idx, i);
    assert node.edges[i] in node.edges;
  }

  /**
   * The walk `while keylen != idx: node, idx = node._next(key, idx)` of `__delitem__`: the node
   * that `key` spells, with the frames back to the root, or `KeyError(key)` when an edge is
   * missing on the way.
   */
  method Locate<V>(root: Node<V>, key: string) returns (r: Result<(seq<Frame<V>>, Node<V>)>)
    requires Valid(root)
    ensures r.KeyError? ==> r.key == key && key !in Contents(root)
    ensures r.Ok? ==> Stored(root, key) == r.value.1.value
    ensures r.Ok? ==> Plug(r.value.0, Node(None, r.value.1.edges)) == Unset(root, key)
  {
    var node := root;
    var path: seq<Frame<V>> := [];
    var idx := 0;
    ReachedRoot(root);
    while idx != |key|
      invariant idx <= |key| && Valid(node) && Reached(root, node, key[..idx])
      invariant Plug(path, Unset(node, key[idx..])) == Unset(root, key)
      decreases |key| - idx
    {
      var next := Next(node, key, idx);
      if next.KeyError? {
        WalkMiss(root, node, key, idx);
        return KeyError(key);
      }
      var i := next.value.0;
      DeleteStep(root, path, node, key, idx, i);
      path := path + [Open(node, i)];
      node := node.edges[i].child;
      idx := next.value.1;
    }
    WalkEnd(root, node, key, idx);
    assert key[idx..] == [];
    return Ok((path, node));
  }

  /** A walk that found the `i`-th edge at `idx`: the child stands at the end of its label and no key ends inside it. */
  lemma WalkFind<V>(root: Node<V>, node: Node<V>, s: string, idx: nat, i: nat)
    requires idx <= |s| && Valid(node) && Reached(root, node, s[..idx])
    requires i < |node.edges| && StartsWith(s, node.edges[i].text, idx)
    ensures var t := node.edges[i].text; var child := node.edges[i].child;
      && idx + |t| <= |s| && Valid(child) && Reached(root, child, s[..idx + |t|])
      && Stored(root, s[..idx + |t|]) == child.value
      && (forall j :: idx < j < idx + |t| ==> s[..j] !in Contents(root))
  {
    var t := node.edges[i].text;
    ReachedFind(root, node, s, idx, i);
    assert node.edges[i] in node.edges;
    ReachedHere(root, node.edges[i].child, s, idx + |t|);
    forall j | idx < j < idx + |t| ensures s[..j] !in Contents(root) {
      Unpathed(root, s[..j]);
    }
  }

  /** A walk that finds no edge at `idx`: no key and no path runs further along `s`. */
  lemma WalkStop<V>(root: Node<V>, node: Node<V>, s: string, idx: nat)
    requires idx <= |s| && Valid(node) && Reached(root, node, s[..idx])
    requires forall e :: e in node.edges ==> !StartsWith(s, e.text, idx)
    ensures forall j :: idx < j <= |s| ==> s[..j] !in Paths(root) && s[..j] !in Contents(root)
  {
    ReachedMisses(root, node, s, idx);
    forall j | idx < j <= |s| ensures s[..j] !in Contents(root) {
      Unpathed(root, s[..j]);
    }
  }

  /** Every key `_keys(node, accu)` yields after a walk that has spelled `p` is a stored key starting with `p`. */
  lemma KeysBelowIn<V>(root: Node<V>, node: Node<V>, p: string)
    requires Valid(node) && Reached(root, node, p)
    ensures forall k :: k in Keys(node, p) ==> k in Contents(root) && p <= k
  {
    var items := Items(node, p);
    var ks := Keys(node, p);
    forall k | k in ks ensures k in Contents(root) && p <= k {
      var a :| 0 <= a < |ks| && ks[a] == k;
      var x := items[a];
      assert x in items;
      ItemsSound(node, p, x);
      var q := k[|p|..];
      assert k == p + q;
      assert Stored(root, p + q) == Stored(node, q);
    }
  }

  /** Every stored key starting with `p` is yielded by `_keys(node, accu)` after a walk that has spelled `p`. */
  lemma KeysBelowAll<V>(root: Node<V>, node: Node<V>, p: string)
    requires Valid(node) && Reached(root, node, p)
    ensures forall k :: k in Contents(root) && p <= k ==> k in Keys(node, p)
  {
    var items := Items(node, p);
    var ks := Keys(node, p);
    forall k | k in Contents(root) && p <= k ensures k in ks {
      var q := k[|p|..];
      assert k == p + q;
      assert Stored(root, p + q) == Stored(node, q);
      ItemsComplete(node, p, q);
      var x := (k, Stored(node, q).value);
      assert x in items;
      var a :| 0 <= a < |items| && items[a] == x;
      assert ks[a] == k;
    }
  }

  /** The keys `_keys(node, accu)` yields for a walk that has spelled `p`: the stored keys starting with `p`, once each. */
  lemma KeysBelow<V>(root: Node<V>, node: Node<V>, p: string)
    requires Valid(node) && Reached(root, node, p)
    ensures forall k :: k in Keys(node, p) <==> k in Contents(root) && p <= k
    ensures forall a, b :: 0 <= a < b < |Keys(node, p)| ==> Keys(node, p)[a] != Keys(node, p)[b]
  {
    KeysBelowIn(root, node, p);
    KeysBelowAll(root, node, p);
    ItemsDistinct(node, p);
    var items := Items(node, p);
    assert forall a :: 0 <= a < |items| ==> Keys(node, p)[a] == items[a].0;
  }

  /** Two prefixes of the same string nest. */
  lemma PrefixOrder(a: string, b: string, q: string)
    requires a <= q
    ensures b <= q ==> a <= b || b <= a
  {
  }

  /**
   * How a string `k` that starts with `s` lines up with a label `t` that `s[idx:]` starts: `k` is
   * `s[:idx]` followed by its rest, which starts with the same symbol as `t`.
   */
  lemma LinesUp(s: string, k: string, idx: nat, t: string)
    requires idx < |s| && s <= k && s[idx..] <= t
    ensures s[..idx] + k[idx..] == k && k[idx..] != [] && t != [] && t[0] == k[idx..][0]
    ensures t <= k[idx..] ==> s[..idx] + t <= k
  {
    assert k[idx..][0] == s[idx..][0];
    if t <= k[idx..] {
      assert s[..idx] + t == k[..idx + |t|];
    }
  }

  /** A stored key that starts with `s` runs through the whole label that the rest of `s` starts. */
  lemma InsideLabel<V>(root: Node<V>, node: Node<V>, s: string, idx: nat, e: Edge<V>, k: string)
    requires idx < |s| && Labels(node.edges) && Reached(root, node, s[..idx])
    requires e in node.edges && s[idx..] <= e.text
    requires k in Contents(root) && s <= k
    ensures s[..idx] + e.text <= k
  {
    LinesUp(s, k, idx, e.text);
    var q := k[idx..];
    assert Stored(root, s[..idx] + q) == Stored(node, q);
    SlotsVia(node, e, q);
  }

  /** A string that runs through `s[:idx]` and then a label that `s[idx:]` starts starts with `s`. */
  lemma PrefixThrough(s: string, idx: nat, t: string, k: string)
    requires idx <= |s| && s[idx..] <= t && s[..idx] + t <= k
    ensures s <= k
  {
    assert s == (s[..idx] + t)[..|s|];
  }

  /**
   * `iter` when the walk stops inside a label that the rest of the prefix starts: the keys that
   * start with the prefix are the keys that run through the whole label.
   */
  lemma IterInside<V>(root: Node<V>, node: Node<V>, s: string, idx: nat, e: Edge<V>)
    requires idx < |s| && Labels(node.edges) && Reached(root, node, s[..idx])
    requires e in node.edges && s[idx..] <= e.text
    ensures forall k :: k in Contents(root) ==> (s <= k <==> s[..idx] + e.text <= k)
  {
    forall k | k in Contents(root) ensures s <= k <==> s[..idx] + e.text <= k {
      if s <= k {
        InsideLabel(root, node, s, idx, e, k);
      }
      if s[..idx] + e.text <= k {
        PrefixThrough(s, idx, e.text, k);
      }
    }
  }

  /** `iter` when no label continues the prefix: no key starts with it. */
  lemma IterNone<V>(root: Node<V>, node: Node<V>, s: string, idx: nat)
    requires idx < |s| && Labels(node.edges) && Reached(root, node, s[..idx])
    requires forall e :: e in node.edges ==> !StartsWith(s, e.text, idx) && !(s[idx..] <= e.text)
    ensures forall k :: s <= k ==> k !in Contents(root)
  {
    var p0 := s[..idx];
    var rem := s[idx..];
    assert s == p0 + rem;
    forall q | rem <= q ensures Stored(node, q) == None {
      StoredLead(node, q);
      if Lead(node.edges, q[0]).Some? {
        var e := node.edges[Lead(node.edges, q[0]).value];
        assert e in node.edges;
        PrefixOrder(rem, e.text, q);
        StartsWithRest(s, e.text, idx);
      }
    }
    forall k | s <= k ensures k !in Contents(root) {
      var q := k[idx..];
      assert k == p0 + q;
    }
  }

  /** Where the walk of `item` starts: the root is the longest key so far exactly when it holds a value. */
  lemma LongestStart<V>(root: Node<V>, s: string)
    ensures Longest(Contents(root).Keys, s, 0) == if root.value.Some? then Some(0) else None
  {
    assert s[..0] == [];
    SlotsRoot(root);
  }

  /** One `_find` step of `item`: the child is the longest key so far if it holds a value, otherwise nothing changes. */
  lemma LongestStep<V>(root: Node<V>, node: Node<V>, s: string, idx: nat, i: nat)
    requires idx <= |s| && Valid(node) && Reached(root, node, s[..idx])
    requires i < |node.edges| && StartsWith(s, node.edges[i].text, idx)
    ensures var j := idx + |node.edges[i].text|; var child := node.edges[i].child;
      && j <= |s| && Valid(child) && Reached(root, child, s[..j])
      && Stored(root, s[..j]) == child.value
      && Longest(Contents(root).Keys, s, j) == if child.value.Some? then Some(j) else Longest(Contents(root).Keys, s, idx)
  {
    var j := idx + |node.edges[i].text|;
    WalkFind(root, node, s, idx, i);
    LongestSkip(Contents(root).Keys, s, idx, j - 1);
  }

  /** Where the walk of `item` stops: at the end of the reach, with no key further along `s`. */
  lemma WalkOver<V>(root: Node<V>, node: Node<V>, s: string, idx: nat)
    requires idx <= |s| && Reached(root, node, s[..idx])
    requires forall j :: idx < j <= |s| ==> s[..j] !in Paths(root)
    ensures idx == Reach(root, s)
    ensures Longest(Contents(root).Keys, s, |s|) == Longest(Contents(root).Keys, s, idx)
  {
    ReachedHere(root, node, s, idx);
    forall j | idx < j <= |s| ensures s[..j] !in Contents(root).Keys {
      Unpathed(root, s[..j]);
    }
    LongestSkip(Contents(root).Keys, s, idx, |s|);
  }

  /**
   * One round of the loop of `isPrefix`: the first label that `string` spells from `idx`, cut to
   * what is left of `string`. Through it the question moves to the child, or is answered yes when
   * `string` ends inside the label; without one the answer is no.
   */
  method PrefixRound<V>(node: Node<V>, s: string, idx: nat) returns (accepted: bool, node': Node<V>, idx': nat)
    requires Valid(node) && idx < |s|
    ensures !accepted ==> !Extended(node, s[idx..])
    ensures accepted ==> Valid(node') && idx < idx'
    ensures accepted && idx' <= |s| ==> (Extended(node, s[idx..]) <==> Extended(node', s[idx'..]))
    ensures accepted && idx' > |s| ==> Extended(node, s[idx..])
  {
    var hit := Accepted(node, s, idx);
    if hit.None? {
      PrefixNone(node, s, idx);
      return false, node, idx;
    }
    var e := node.edges[hit.value];
    PrefixStep(node, s, idx, hit.value);
    assert e in node.edges;
    return true, e.child, idx + |e.text|;
  }

  /**
   * One round of the loop of `item`: `_find` the next label; stop if there is none, otherwise go
   * to the child and remember its value if it holds one. The walk invariants carry over.
   */
  method ItemRound<V>(root: Node<V>, node: Node<V>, s: string, idx: nat, at: nat, last: Option<V>)
    returns (going: bool, node': Node<V>, idx': nat, at': nat, last': Option<V>)
    requires idx < |s| && Valid(node) && Reached(root, node, s[..idx])
    requires Longest(Contents(root).Keys, s, idx) == if last.Some? then Some(at) else None
    requires last.Some? ==> at <= |s| && s[..at] in Contents(root) && Contents(root)[s[..at]] == last.value
    ensures idx' <= |s| && Valid(node') && Reached(root, node', s[..idx'])
    ensures Longest(Contents(root).Keys, s, idx') == if last'.Some? then Some(at') else None
    ensures last'.Some? ==> at' <= |s| && s[..at'] in Contents(root) && Contents(root)[s[..at']] == last'.value
    ensures going ==> idx < idx'
    ensures !going ==> idx' == idx && forall j :: idx < j <= |s| ==> s[..j] !in Paths(root)
  {
    var hit, j := Find(node, s, idx);
    if hit.None? {
      ReachedMisses(root, node, s, idx);
      return false, node, idx, at, last;
    }
    LongestStep(root, node, s, idx, hit.value);
    var child := node.edges[hit.value].child;
    if child.value.Some? {
      return true, child, j, j, child.value;
    }
    return true, child, j, at, last;
  }

  /** Every stored key runs along a path: a prefix of a stored key is always accepted by `isPrefix`. */
  lemma KeyExtended<V>(root: Node<V>, s: string, k: string)
    requires k in Contents(root) && s <= k
    ensures Extended(root, s)
  {
    assert k in Paths(root);
  }

  /** The keys of a scan: `string[:idx]` for every hit. */
  function HitKeys<V>(s: string, hits: seq<(nat, V)>): seq<string>
    requires forall a :: 0 <= a < |hits| ==> hits[a].0 <= |s|
  {
    seq(|hits|, a requires 0 <= a < |hits| => s[..hits[a].0])
  }

  /** The pairs of a scan: `(string[:idx], value)` for every hit. */
  function HitItems<V>(s: string, hits: seq<(nat, V)>): seq<(string, V)>
    requires forall a :: 0 <= a < |hits| ==> hits[a].0 <= |s|
  {
    seq(|hits|, a requires 0 <= a < |hits| => (s[..hits[a].0], hits[a].1))
  }

  /** The hits below `|s| + 1` all lie within `s`. */
  lemma HitsWithin<V>(m: map<string, V>, s: string, hits: seq<(nat, V)>)
    requires hits == Hits(m, s, |s| + 1)
    ensures forall a :: 0 <= a < |hits| ==> hits[a].0 <= |s|
  {
    HitsSound(m, s, |s| + 1);
    assert forall a :: 0 <= a < |hits| ==> hits[a] in hits;
  }

  /** Every key of a scan is a key of `m` and a prefix of `s`. */
  lemma HitKeysIn<V>(m: map<string, V>, s: string, hits: seq<(nat, V)>)
    requires hits == Hits(m, s, |s| + 1)
    requires forall a :: 0 <= a < |hits| ==> hits[a].0 <= |s|
    ensures forall k :: k in HitKeys(s, hits) ==> k in m && k <= s
  {
    HitsSound(m, s, |s| + 1);
    var ks := HitKeys(s, hits);
    forall k | k in ks ensures k in m && k <= s {
      var a :| 0 <= a < |ks| && ks[a] == k;
      assert hits[a] in hits;
    }
  }

  /** Every key of `m` that is a prefix of `s` is a key of the scan. */
  lemma HitKeysAll<V>(m: map<string, V>, s: string, hits: seq<(nat, V)>)
    requires hits == Hits(m, s, |s| + 1)
    requires forall a :: 0 <= a < |hits| ==> hits[a].0 <= |s|
    ensures forall k :: k in m && k <= s ==> k in HitKeys(s, hits)
  {
    HitsComplete(m, s, |s| + 1);
    var ks := HitKeys(s, hits);
    forall k | k in m && k <= s ensures k in ks {
      assert s[..|k|] == k;
      var a :| 0 <= a < |hits| && hits[a] == (|k|, m[k]);
      assert ks[a] == k;
    }
  }

  /** The keys of a scan of `s` are the keys of `m` that are prefixes of `s`, shortest first. */
  lemma HitKeysExact<V>(m: map<string, V>, s: string, hits: seq<(nat, V)>)
    requires hits == Hits(m, s, |s| + 1)
    requires forall a :: 0 <= a < |hits| ==> hits[a].0 <= |s|
    ensures var ks := HitKeys(s, hits);
      && (forall k :: k in ks <==> k in m && k <= s)
      && (forall a, b :: 0 <= a < b < |ks| ==> |ks[a]| < |ks[b]|)
  {
    HitKeysIn(m, s, hits);
    HitKeysAll(m, s, hits);
    HitsSorted(m, s, |s| + 1);
  }

  /** Every pair of a scan is an entry of `m` whose key is a prefix of `s`. */
  lemma HitItemsIn<V>(m: map<string, V>, s: string, hits: seq<(nat, V)>)
    requires hits == Hits(m, s, |s| + 1)
    requires forall a :: 0 <= a < |hits| ==> hits[a].0 <= |s|
    ensures forall x :: x in HitItems(s, hits) ==> x.0 in m && x.0 <= s && m[x.0] == x.1
  {
    HitsSound(m, s, |s| + 1);
    var xs := HitItems(s, hits);
    forall x | x in xs ensures x.0 in m && x.0 <= s && m[x.0] == x.1 {
      var a :| 0 <= a < |xs| && xs[a] == x;
      assert hits[a] in hits;
    }
  }

  /** Every entry of `m` whose key is a prefix of `s` is a pair of the scan. */
  lemma HitItemsAll<V>(m: map<string, V>, s: string, hits: seq<(nat, V)>)
    requires hits == Hits(m, s, |s| + 1)
    requires forall a :: 0 <= a < |hits| ==> hits[a].0 <= |s|
    ensures forall x: (string, V) :: x.0 in m && x.0 <= s && m[x.0] == x.1 ==> x in HitItems(s, hits)
  {
    HitsComplete(m, s, |s| + 1);
    var xs := HitItems(s, hits);
    forall x: (string, V) | x.0 in m && x.0 <= s && m[x.0] == x.1 ensures x in xs {
      assert s[..|x.0|] == x.0;
      var a :| 0 <= a < |hits| && hits[a] == (|x.0|, x.1);
      assert xs[a] == x;
    }
  }

  /** The pairs of a scan of `s` are the entries of `m` whose keys are prefixes of `s`, shortest first. */
  lemma HitItemsExact<V>(m: map<string, V>, s: string, hits: seq<(nat, V)>)
    requires hits == Hits(m, s, |s| + 1)
    requires forall a :: 0 <= a < |hits| ==> hits[a].0 <= |s|
    ensures var xs := HitItems(s, hits);
      && (forall x :: x in xs <==> x.0 in m && x.0 <= s && m[x.0] == x.1)
      && (forall a, b :: 0 <= a < b < |xs| ==> |xs[a].0| < |xs[b].0|)
  {
    HitItemsIn(m, s, hits);
    HitItemsAll(m, s, hits);
    HitsSorted(m, s, |s| + 1);
  }

  /** `_items(root, '')` yields every stored pair once. */
  lemma AllItems<V>(n: Node<V>)
    requires Valid(n)
    ensures forall x :: x in Items(n, []) <==> x.0 in Contents(n) && Contents(n)[x.0] == x.1
    ensures DistinctKeys(Items(n, []))
  {
    var e: string := [];
    ItemsExact(n, e);
    forall x: (string, V) ensures x.0[|e|..] == x.0 {
    }
  }

  class Trie<V> {
    /** The root node; its value slot holds the value of the empty key. */
    var root: Node<V>

    ghost predicate Valid()
      reads this
    {
      Nodes.Valid(root)
    }

    /** The dictionary the trie stands for. */
    ghost function Contents(): map<string, V>
      reads this
    {
      Nodes.Contents(root)
    }

    /**
     * `trie(*value, **keys)`: the root holds `value` when one is given, then every pair of
     * `pairs` is assigned in turn.
     */
    constructor (value: Option<V>, pairs: seq<(string, V)>)
      ensures Valid()
      ensures root == Build(Node(value, []), pairs)
      ensures Contents() == Assign(Initial(value), pairs)
    {
      root := Node(value, []);
      new;
      SingleContents(value);
      for i := 0 to |pairs|
        invariant Valid()
        invariant root == Build(Node(value, []), pairs[..i])
        invariant Contents() == Assign(Initial(value), pairs[..i])
      {
        Set(pairs[i].0, pairs[i].1);
        assert pairs[..i + 1][..i] == pairs[..i];
      }
      assert pairs[..|pairs|] == pairs;
    }

    /**
     * `T[key] = value`: walk down the labels that `key` spells; split the first label that only
     * shares a prefix with the rest of the key at their longest common prefix, with the bound of
     * the split loop corrected to `min` (`SplitPoint`; `SplitPointAsWritten` is the loop as
     * written); hang the rest of the key as a new leaf when no label starts with its next symbol;
     * then set the value slot of the node reached.
     */
    method Set(key: string, value: V)
      requires Valid()
      modifies this
      ensures Valid()
      ensures root == Insert(old(root), key, value)
      ensures Contents() == old(Contents())[key := value]
    {
      ghost var goal := Insert(root, key, value);
      InsertValid(root, key, value);
      InsertContents(root, key, value);
      var node := root;
      var path: seq<Frame<V>> := [];
      var idx := 0;
      while idx != |key|
        invariant idx <= |key| && Nodes.Valid(node)
        invariant Plug(path, Insert(node, key[idx..], value)) == goal
        decreases |key| - idx, if idx < |key| && Lead(node.edges, key[idx]).None? then 1 else 0
      {
        path, node, idx := SetRound(path, node, key, idx, value);
      }
      assert key[idx..] == [];
      root := Plug(path, Node(Some(value), node.edges));
    }

    /** `T[key]`: the stored value, or `KeyError(key)` when the walk fails or ends on a non-terminal node. */
    method Get(key: string) returns (r: Result<V>)
      requires Valid()
      ensures r == if key in Contents() then Ok(Contents()[key]) else KeyError(key)
    {
      var node := root;
      var idx := 0;
      ReachedRoot(root);
      while idx != |key|
        invariant idx <= |key| && Nodes.Valid(node) && Reached(root, node, key[..idx])
        decreases |key| - idx
      {
        var next := Next(node, key, idx);
        if next.KeyError? {
          WalkMiss(root, node, key, idx);
          return KeyError(key);
        }
        var i := next.value.0;
        ReachedFind(root, node, key, idx, i);
        node := node.edges[i].child;
        idx := next.value.1;
      }
      WalkEnd(root, node, key, idx);
      if node.value.None? {
        return KeyError(key);
      }
      return Ok(node.value.value);
    }

    /** `key in T`: the `_find` walk spells all of `key` and ends on a terminal node. */
    method Contains(key: string) returns (b: bool)
      requires Valid()
      ensures b <==> key in Contents()
    {
      var node: Option<Node<V>> := Some(root);
      var idx := 0;
      ReachedRoot(root);
      while idx != |key| && node.Some?
        invariant idx <= |key|
        invariant node.Some? ==> Nodes.Valid(node.value) && Reached(root, node.value, key[..idx])
        invariant node.None? ==> key !in Contents()
        decreases |key| - idx, if node.Some? then 1 else 0
      {
        var n := node.value;
        var hit, j := Find(n, key, idx);
        if hit.None? {
          WalkMiss(root, n, key, idx);
          node := None;
        } else {
          ReachedFind(root, n, key, idx, hit.value);
          node := Some(n.edges[hit.value].child);
        }
        idx := j;
      }
      if node.None? {
        return false;
      }
      WalkEnd(root, node.value, key, idx);
      return node.value.value.Some?;
    }

    /**
     * `del T[key]`: walk down with `_next` and turn the node reached non-terminal; `KeyError(key)`
     * (and no change) when the walk fails or the node is not terminal. No edge is removed.
     */
    method Delete(key: string) returns (r: Result<()>)
      requires Valid()
      modifies this
      ensures Valid()
      ensures r == if key in old(Contents()) then Ok(()) else KeyError(key)
      ensures root == if r.Ok? then Unset(old(root), key) else old(root)
      ensures Contents() == old(Contents()) - {key}
    {
      UnsetValid(root, key);
      UnsetContents(root, key);
      var at := Locate(root, key);
      if at.KeyError? || at.value.1.value.None? {
        assert Contents() - {key} == Contents();
        return KeyError(key);
      }
      var path := at.value.0;
      var node := at.value.1;
      root := Plug(path, Node(None, node.edges));
      return Ok(());
    }

    /**
     * `_scan(string, ...)`: walk along `string` with `_find` and report `(idx, value)` at every
     * terminal node on the way, the root first.
     */
    method Scan(s: string) returns (hits: seq<(nat, V)>)
      requires Valid()
      ensures hits == Hits(Contents(), s, |s| + 1)
    {
      var node: Option<Node<V>> := Some(root);
      var idx := 0;
      hits := [];
      ReachedRoot(root);
      while node.Some?
        invariant idx <= |s|
        invariant node.Some? ==> Nodes.Valid(node.value) && Reached(root, node.value, s[..idx])
        invariant node.Some? ==> hits == Hits(Contents(), s, idx)
        invariant node.None? ==> hits == Hits(Contents(), s, |s| + 1)
        decreases |s| - idx, if node.Some? then 1 else 0
      {
        var n := node.value;
        ReachedHere(root, n, s, idx);
        if n.value.Some? {
          hits := hits + [(idx, n.value.value)];
        }
        assert hits == Hits(Contents(), s, idx + 1);
        var hit, j := Find(n, s, idx);
        if hit.None? {
          WalkStop(root, n, s, idx);
          HitsSkip(Contents(), s, idx + 1, |s| + 1);
          node := None;
        } else {
          WalkFind(root, n, s, idx, hit.value);
          HitsSkip(Contents(), s, idx + 1, j);
          node := Some(n.edges[hit.value].child);
          idx := j;
        }
      }
    }

    /**
     * `keys()`: every stored key once, in the pre-order of `_keys`; `keys(S)`: the stored keys
     * that are prefixes of `S`, shortest first.
     */
    method Keys(s: Option<string>) returns (ks: seq<string>)
      requires Valid()
      ensures s.None? ==> ks == Enumerator.Keys(root, [])
      ensures s.None? ==> forall k :: k in ks <==> k in Contents()
      ensures forall a, b :: 0 <= a < b < |ks| ==> ks[a] != ks[b]
      ensures s.Some? ==> forall k :: k in ks <==> k in Contents() && k <= s.value
      ensures s.Some? ==> forall a, b :: 0 <= a < b < |ks| ==> |ks[a]| < |ks[b]|
    {
      if s.None? {
        ReachedRoot(root);
        KeysBelow(root, root, []);
        return Enumerator.Keys(root, []);
      }
      var hits := Scan(s.value);
      HitsWithin(Contents(), s.value, hits);
      HitKeysExact(Contents(), s.value, hits);
      ks := HitKeys(s.value, hits);
    }

    /**
     * `values()`: every stored value once, in pre-order; `values(S)`: the values of the stored
     * keys that are prefixes of `S`, shortest key first.
     */
    method Values(s: Option<string>) returns (vs: seq<V>)
      requires Valid()
      ensures s.None? ==> vs == Seconds(Enumerator.Items(root, [])) && |vs| == |Contents()|
      ensures s.Some? ==> vs == Seconds(Hits(Contents(), s.value, |s.value| + 1))
    {
      if s.None? {
        ValuesItems(root, []);
        CountItems(root, []);
        CountContents(root);
        return Enumerator.Values(root);
      }
      var hits := Scan(s.value);
      return Seconds(hits);
    }

    /**
     * `items()`: every stored pair once, in pre-order; `items(S)`: the stored pairs whose keys are
     * prefixes of `S`, shortest key first.
     */
    method Items(s: Option<string>) returns (xs: seq<(string, V)>)
      requires Valid()
      ensures s.None? ==> xs == Enumerator.Items(root, [])
      ensures s.None? ==> forall x :: x in xs <==> x.0 in Contents() && Contents()[x.0] == x.1
      ensures forall a, b :: 0 <= a < b < |xs| ==> xs[a].0 != xs[b].0
      ensures s.Some? ==> forall x :: x in xs <==> x.0 in Contents() && x.0 <= s.value && Contents()[x.0] == x.1
      ensures s.Some? ==> forall a, b :: 0 <= a < b < |xs| ==> |xs[a].0| < |xs[b].0|
    {
      if s.None? {
        AllItems(root);
        return Enumerator.Items(root, []);
      }
      var hits := Scan(s.value);
      HitsWithin(Contents(), s.value, hits);
      HitItemsExact(Contents(), s.value, hits);
      xs := HitItems(s.value, hits);
    }

    /**
     * The walk of `item(string)`: follow `_find` while `string` lasts, remembering the value of
     * the last terminal node passed (`last`) and, beside the source, the length `at` it stands at.
     */
    method ItemWalk(s: string) returns (idx: nat, at: nat, last: Option<V>)
      requires Valid()
      ensures idx == Reach(root, s)
      ensures Longest(Contents().Keys, s, |s|) == if last.Some? then Some(at) else None
      ensures last.Some? ==> at <= |s| && s[..at] in Contents() && Contents()[s[..at]] == last.value
    {
      var node := root;
      idx, at, last := 0, 0, root.value;
      ReachedRoot(root);
      LongestStart(root, s);
      SlotsRoot(root);
      assert s[..0] == [];
      var going := true;
      while going && idx < |s|
        invariant idx <= |s| && Nodes.Valid(node) && Reached(root, node, s[..idx])
        invariant Longest(Contents().Keys, s, idx) == if last.Some? then Some(at) else None
        invariant last.Some? ==> at <= |s| && s[..at] in Contents() && Contents()[s[..at]] == last.value
        invariant !going ==> forall j :: idx < j <= |s| ==> s[..j] !in Paths(root)
        decreases |s| - idx, going
      {
        going, node, idx, at, last := ItemRound(root, node, s, idx, at, last);
      }
      WalkOver(root, node, s, idx);
    }

    /**
     * `item(string, default)`: the longest stored key that is a prefix of `string`, with its
     * value; otherwise the default, or `KeyError` with the prefix the walk spelled.
     */
    method Item<D>(s: string, default: Option<D>) returns (r: Match<(string, V), D>)
      requires Valid()
      ensures match Longest(Contents().Keys, s, |s|)
        case Some(i) => r == Hit((s[..i], Contents()[s[..i]]))
        case None => r == if default.Some? then Fallback(default.value) else Miss(s[..Reach(root, s)])
    {
      var idx, at, last := ItemWalk(s);
      if last.Some? {
        return Hit((s[..at], last.value));
      } else if default.Some? {
        return Fallback(default.value);
      } else {
        return Miss(s[..idx]);
      }
    }

    /**
     * `item(string, default)` as written: the remembered value is paired with `string[:idx]` for
     * the index where the walk stopped, which can lie past the key the value belongs to.
     */
    method ItemAsWritten<D>(s: string, default: Option<D>) returns (r: Match<(string, V), D>)
      requires Valid()
      ensures match Longest(Contents().Keys, s, |s|)
        case Some(i) => r == Hit((s[..Reach(root, s)], Contents()[s[..i]]))
        case None => r == if default.Some? then Fallback(default.value) else Miss(s[..Reach(root, s)])
    {
      var idx, at, last := ItemWalk(s);
      if last.Some? {
        return Hit((s[..idx], last.value));
      } else if default.Some? {
        return Fallback(default.value);
      } else {
        return Miss(s[..idx]);
      }
    }

    /** `key(string, default)`: the key of `item`. */
    method Key<D>(s: string, default: Option<D>) returns (r: Match<string, D>)
      requires Valid()
      ensures match Longest(Contents().Keys, s, |s|)
        case Some(i) => r == Hit(s[..i])
        case None => r == if default.Some? then Fallback(default.value) else Miss(s[..Reach(root, s)])
    {
      var x := Item(s, default);
      match x
      case Hit(kv) => return Hit(kv.0);
      case Fallback(d) => return Fallback(d);
      case Miss(w) => return Miss(w);
    }

    /** `value(string, default)`: the value of `item`. */
    method Value<D>(s: string, default: Option<D>) returns (r: Match<V, D>)
      requires Valid()
      ensures match Longest(Contents().Keys, s, |s|)
        case Some(i) => r == Hit(Contents()[s[..i]])
        case None => r == if default.Some? then Fallback(default.value) else Miss(s[..Reach(root, s)])
    {
      var x := Item(s, default);
      match x
      case Hit(kv) => return Hit(kv.1);
      case Fallback(d) => return Fallback(d);
      case Miss(w) => return Miss(w);
    }

    /**
     * `isPrefix(string)`: follow every label that `string` spells, or that the rest of `string`
     * ends inside; true exactly when `string` runs along a path of the trie.
     */
    method IsPrefix(s: string) returns (b: bool)
      requires Valid()
      ensures b <==> Extended(root, s)
    {
      var node := root;
      var idx := 0;
      while idx < |s|
        invariant Nodes.Valid(node)
        invariant idx <= |s| ==> (Extended(root, s) <==> Extended(node, s[idx..]))
        invariant idx > |s| ==> Extended(root, s)
        decreases |s| - idx
      {
        var accepted, node', idx' := PrefixRound(node, s, idx);
        if !accepted {
          return false;
        }
        node, idx := node', idx';
      }
      if idx == |s| {
        ExtendedEmpty(node);
      }
      return true;
    }

    /**
     * What `isPrefix(string)` promises: true exactly when some stored key starts with `string`,
     * decided here by whether `iter(string)` yields a key.
     */
    method StartsAnyKey(s: string) returns (b: bool)
      requires Valid()
      ensures b <==> exists k :: k in Contents() && s <= k
    {
      var ks := Iter(s);
      if ks == [] {
        return false;
      }
      assert ks[0] in ks;
      return true;
    }

    /**
     * `iter(prefix)`: walk along `prefix` with `_next` until it runs out or no label is spelled;
     * if the walk stops short, continue through the one label that the rest of `prefix` starts;
     * then yield the keys of `_keys` below. These are the stored keys that start with `prefix`.
     */
    method Iter(prefix: string) returns (ks: seq<string>)
      requires Valid()
      ensures forall k :: k in ks <==> k in Contents() && prefix <= k
      ensures forall a, b :: 0 <= a < b < |ks| ==> ks[a] != ks[b]
    {
      var node := root;
      var idx := 0;
      ReachedRoot(root);
      while idx < |prefix|
        invariant idx <= |prefix| && Nodes.Valid(node) && Reached(root, node, prefix[..idx])
        decreases |prefix| - idx
      {
        var next := Next(node, prefix, idx);
        if next.KeyError? {
          break;
        }
        var i := next.value.0;
        ReachedFind(root, node, prefix, idx, i);
        assert node.edges[i] in node.edges;
        node := node.edges[i].child;
        idx := next.value.1;
      }
      if idx != |prefix| {
        var rest := prefix[idx..];
        var hit := FirstEdge(node.edges, t => rest <= t);
        if hit.None? {
          IterNone(root, node, prefix, idx);
          return [];
        }
        var e := node.edges[hit.value];
        assert e in node.edges;
        IterInside(root, node, prefix, idx, e);
        ReachedStep(root, node, prefix[..idx], e);
        var accu := prefix + e.text[|rest|..];
        assert accu == prefix[..idx] + e.text;
        KeysBelow(root, e.child, accu);
        return Enumerator.Keys(e.child, accu);
      }
      assert prefix[..idx] == prefix;
      KeysBelow(root, node, prefix);
      return Enumerator.Keys(node, prefix);
    }

    /** `iter(T)`: the keys of `_keys(T, [])`, every stored key once, in pre-order. */
    method Iterate() returns (ks: seq<string>)
      requires Valid()
      ensures ks == Enumerator.Keys(root, [])
      ensures forall k :: k in ks <==> k in Contents()
      ensures forall a, b :: 0 <= a < b < |ks| ==> ks[a] != ks[b]
    {
      ks := Keys(None);
    }

    /** `len(T)`: the number of stored keys, the empty key included. */
    function Len(): (r: nat)
      reads this
      requires Valid()
      ensures r == |Contents()|
    {
      CountContents(root);
      Count(root)
    }
  }

  /**
   * `trie(a=x, abc=y, abd=z).item('abx')`: the source answers `('ab', x)`, a key that is not
   * stored; the longest stored key that is a prefix of `'abx'` is `'a'`.
   */
  method ItemAfterThreeKeys<V>(x: V, y: V, z: V) returns (written: Match<(string, V), ()>, intended: Match<(string, V), ()>)
    ensures written == Hit(("ab", x))
    ensures intended == Hit(("a", x))
  {
    assert "abx"[..2] == "ab" && "abx"[..1] == "a";
    BuildThreeKeys(x, y, z);
    WalkEndsPastLongestKey(x, y, z);
    ThreeKeysAt(x, y, z);
    var t := new Trie<V>(None, [("a", x), ("abc", y), ("abd", z)]);
    written := t.ItemAsWritten("abx", None);
    intended := t.Item("abx", None);
  }

  /**
   * `T['foo'] = v; del T['foo']; T.isPrefix('f')`: deletion only clears the value slot, the leaf
   * `foo` stays, and `isPrefix` still answers true although no key is left.
   */
  method PrefixAfterDelete<V>(v: V) returns (written: bool, intended: bool)
    ensures written && !intended
  {
    var t := new Trie<V>(None, [("foo", v)]);
    ghost var leaf: Node<V> := Node(Some(v), []);
    assert Build(Node(None, []), [("foo", v)]) == Insert(Node(None, []), "foo", v);
    assert Insert(Node(None, []), "foo", v) == Node(None, [Edge("foo", leaf)]);
    var r := t.Delete("foo");
    assert Lead([Edge("foo", leaf)], 'f') == Some(0);
    assert "foo"[3..] == [];
    assert t.root == Node(None, [Edge("foo", Node(None, []))]);
    ExtendedViaIf(t.root, t.root.edges[0], "f");
    written := t.IsPrefix("f");
    intended := t.StartsAnyKey("f");
  }
}
