/**
 * The node of the PATRICIA trie and its abstract meaning.
 *
 * A node has a value slot and a list of outgoing edges. The list keeps the insertion order of the
 * dictionary the source uses, so the order in which `_find` tries edges and in which the traversals
 * visit them is modelled exactly. The abstraction `Slots` maps every path from a node (the
 * concatenated labels down to some node of its branch) to that node's value slot; `Contents` keeps
 * the terminal ones and is the dictionary the trie stands for.
 */
module Nodes {
  import opened Wrappers

  /** An outgoing edge: its label (a non-empty run of symbols) and the child it leads to. */
  datatype Edge<V> = Edge(text: string, child: Node<V>)

  /** A node: its value slot (`None` for the non-terminal sentinel) and its edges in insertion order. */
  datatype Node<V> = Node(value: Option<V>, edges: seq<Edge<V>>)

  /** Python's `s.startswith(p, offset)`. */
  predicate StartsWith(s: string, p: string, offset: nat)
  {
    offset + |p| <= |s| && s[offset..offset + |p|] == p
  }

  lemma StartsWithRest(s: string, p: string, offset: nat)
    requires offset <= |s|
    ensures StartsWith(s, p, offset) <==> p <= s[offset..]
  {
    if p <= s[offset..] {
      assert s[offset..offset + |p|] == s[offset..][..|p|];
    }
  }

  lemma Rejoin(s: string, p: nat)
    requires p <= |s|
    ensures s[..p] + s[p..] == s
  {
  }

  /** The invariants of one edge list: every label is non-empty and no two labels share a first symbol. */
  ghost predicate Labels<V>(es: seq<Edge<V>>)
  {
    && (forall i :: 0 <= i < |es| ==> es[i].text != [])
    && (forall i, j :: 0 <= i < j < |es| ==> es[i].text[0] != es[j].text[0])
  }

  /** The structural invariants hold at every node of the branch. */
  ghost predicate Valid<V>(n: Node<V>)
  {
    && Labels(n.edges)
    && (forall i :: 0 <= i < |n.edges| ==> Valid(n.edges[i].child))
  }

  /** `m` with `p` put in front of every key. */
  function Prepend<T>(p: string, m: map<string, T>): map<string, T>
  {
    assert forall k1: string, k2: string {:trigger p + k1, p + k2} :: p + k1 == p + k2 ==> k1 == k2 by {
      forall k1: string, k2: string | p + k1 == p + k2 ensures k1 == k2 {
        assert k1 == (p + k1)[|p|..];
        assert k2 == (p + k2)[|p|..];
      }
    }
    map k | k in m :: p + k := m[k]
  }

  /** Every path from `n` into its branch, mapped to the value slot of the node it reaches. */
  ghost function Slots<V>(n: Node<V>): map<string, Option<V>>
    decreases n, 0
  {
    BelowSlots(n.edges) + map[[] := n.value]
  }

  /** The paths that start with one of the edges `es`, with their value slots. */
  ghost function BelowSlots<V>(es: seq<Edge<V>>): map<string, Option<V>>
    decreases es, 1
  {
    if es == [] then map[] else Prepend(es[0].text, Slots(es[0].child)) + BelowSlots(es[1..])
  }

  /** The structural path set: every concatenation of labels from `n` down to a node. */
  ghost function Paths<V>(n: Node<V>): set<string>
  {
    Slots(n).Keys
  }

  /** The dictionary the branch stands for: the paths to terminal nodes, with their values. */
  ghost function Contents<V>(n: Node<V>): map<string, V>
  {
    map k | k in Slots(n) && Slots(n)[k].Some? :: Slots(n)[k].value
  }

  /** The value stored under `k`, or `None`. */
  ghost function Stored<V>(n: Node<V>, k: string): (r: Option<V>)
    ensures r.Some? <==> k in Contents(n)
    ensures r.Some? ==> Contents(n)[k] == r.value
  {
    if k in Slots(n) then Slots(n)[k] else None
  }

  /** `s` is a prefix of some path of the branch. */
  ghost predicate Extended<V>(n: Node<V>, s: string)
  {
    exists p :: p in Paths(n) && s <= p
  }

  lemma LabelsTail<V>(es: seq<Edge<V>>)
    requires es != [] && Labels(es)
    ensures Labels(es[1..])
  {
    forall i, j | 0 <= i < j < |es[1..]| ensures es[1..][i].text[0] != es[1..][j].text[0] {
      assert es[1..][i] == es[i + 1] && es[1..][j] == es[j + 1];
    }
  }

  lemma PrependAt<T>(p: string, m: map<string, T>, k: string)
    ensures k in Prepend(p, m) <==> p <= k && k[|p|..] in m
    ensures k in Prepend(p, m) ==> Prepend(p, m)[k] == m[k[|p|..]]
  {
    if p <= k && k[|p|..] in m {
      assert k == p + k[|p|..];
    }
    if k in Prepend(p, m) {
      var j :| j in m && k == p + j;
      assert k[|p|..] == j;
    }
  }

  lemma {:induction false} BelowSlotsNone<V>(es: seq<Edge<V>>, k: string)
    requires Labels(es) && k != []
    requires forall i :: 0 <= i < |es| ==> es[i].text[0] != k[0]
    ensures k !in BelowSlots(es)
  {
    if es != [] {
      LabelsTail(es);
      BelowSlotsNone(es[1..], k);
      PrependAt(es[0].text, Slots(es[0].child), k);
    }
  }

  /** A non-empty path whose first symbol starts the first label leaves through the first edge. */
  lemma BelowSlotsHead<V>(es: seq<Edge<V>>, k: string)
    requires Labels(es) && es != [] && k != [] && es[0].text[0] == k[0]
    ensures k in BelowSlots(es) <==> es[0].text <= k && k[|es[0].text|..] in Slots(es[0].child)
    ensures k in BelowSlots(es) ==> BelowSlots(es)[k] == Slots(es[0].child)[k[|es[0].text|..]]
  {
    assert BelowSlots(es) == Prepend(es[0].text, Slots(es[0].child)) + BelowSlots(es[1..]);
    LabelsTail(es);
    PrependAt(es[0].text, Slots(es[0].child), k);
    forall j | 0 <= j < |es[1..]| ensures es[1..][j].text[0] != k[0] {
      assert es[1..][j] == es[j + 1];
    }
    BelowSlotsNone(es[1..], k);
  }

  /** A path whose first symbol does not start the first label is a path of the other edges. */
  lemma BelowSlotsTail<V>(es: seq<Edge<V>>, k: string)
    requires Labels(es) && es != [] && k != [] && es[0].text[0] != k[0]
    ensures k in BelowSlots(es) <==> k in BelowSlots(es[1..])
    ensures k in BelowSlots(es) ==> BelowSlots(es)[k] == BelowSlots(es[1..])[k]
  {
    assert BelowSlots(es) == Prepend(es[0].text, Slots(es[0].child)) + BelowSlots(es[1..]);
    PrependAt(es[0].text, Slots(es[0].child), k);
  }

  lemma {:induction false} BelowSlotsVia<V>(es: seq<Edge<V>>, i: nat, k: string)
    requires Labels(es) && i < |es| && k != [] && es[i].text[0] == k[0]
    ensures k in BelowSlots(es) <==> es[i].text <= k && k[|es[i].text|..] in Slots(es[i].child)
    ensures k in BelowSlots(es) ==> BelowSlots(es)[k] == Slots(es[i].child)[k[|es[i].text|..]]
  {
    if i == 0 {
      BelowSlotsHead(es, k);
    } else {
      LabelsTail(es);
      assert es[1..][i - 1] == es[i];
      BelowSlotsVia(es[1..], i - 1, k);
      BelowSlotsTail(es, k);
    }
  }

  /** The empty path reaches the node itself. */
  lemma SlotsRoot<V>(n: Node<V>)
    ensures [] in Slots(n) && Slots(n)[[]] == n.value
    ensures Stored(n, []) == n.value
  {
  }

  /** A non-empty path leaves the node through the one edge that starts with its first symbol. */
  lemma SlotsVia<V>(n: Node<V>, e: Edge<V>, k: string)
    requires Labels(n.edges) && e in n.edges && k != [] && e.text[0] == k[0]
    ensures k in Slots(n) <==> e.text <= k && k[|e.text|..] in Slots(e.child)
    ensures k in Slots(n) ==> Slots(n)[k] == Slots(e.child)[k[|e.text|..]]
    ensures Stored(n, k) == if e.text <= k then Stored(e.child, k[|e.text|..]) else None
  {
    var i :| 0 <= i < |n.edges| && n.edges[i] == e;
    BelowSlotsVia(n.edges, i, k);
  }

  /** A non-empty path whose first symbol starts no edge reaches nothing. */
  lemma SlotsNone<V>(n: Node<V>, k: string)
    requires Labels(n.edges) && k != []
    requires forall e :: e in n.edges ==> e.text[0] != k[0]
    ensures k !in Slots(n) && Stored(n, k) == None
  {
    forall i | 0 <= i < |n.edges| ensures n.edges[i].text[0] != k[0] {
      assert n.edges[i] in n.edges;
    }
    BelowSlotsNone(n.edges, k);
  }

  /** A stored key is a path. */
  lemma Unpathed<V>(n: Node<V>, k: string)
    requires k !in Paths(n)
    ensures k !in Contents(n)
  {
    assert Stored(n, k) == None;
  }

  /** Every branch spells the empty string. */
  lemma ExtendedEmpty<V>(n: Node<V>)
    ensures Extended(n, [])
  {
    SlotsRoot(n);
    var empty: string := [];
    assert empty in Paths(n) && empty <= empty;
  }

  /** A non-empty `s` is spelled from `n` exactly when it runs along the edge that starts with its symbol. */
  lemma ExtendedVia<V>(n: Node<V>, e: Edge<V>, s: string)
    requires Labels(n.edges) && e in n.edges && s != [] && e.text[0] == s[0]
    ensures Extended(n, s) <==> s <= e.text || (e.text <= s && Extended(e.child, s[|e.text|..]))
  {
    if Extended(n, s) {
      ExtendedViaOnly(n, e, s);
    }
    if s <= e.text || (e.text <= s && Extended(e.child, s[|e.text|..])) {
      ExtendedViaIf(n, e, s);
    }
  }

  /** The paths below `n` that begin with the first symbol of `e`'s label all run through `e`. */
  lemma PathsVia<V>(n: Node<V>, e: Edge<V>, k: string)
    requires Labels(n.edges) && e in n.edges && k != [] && e.text[0] == k[0]
    ensures k in Paths(n) <==> e.text <= k && k[|e.text|..] in Paths(e.child)
  {
    SlotsVia(n, e, k);
  }

  lemma ExtendedViaOnly<V>(n: Node<V>, e: Edge<V>, s: string)
    requires Labels(n.edges) && e in n.edges && s != [] && e.text[0] == s[0]
    requires Extended(n, s)
    ensures s <= e.text || (e.text <= s && Extended(e.child, s[|e.text|..]))
  {
    var p :| p in Paths(n) && s <= p;
    PathsVia(n, e, p);
    if !(s <= e.text) {
      PrefixBeyond(s, e.text, p);
    }
  }

  /** Two prefixes of the same string, the first not a prefix of the second, nest the other way. */
  lemma PrefixBeyond(s: string, t: string, p: string)
    requires s <= p && t <= p && !(s <= t)
    ensures t <= s && s[|t|..] <= p[|t|..]
  {
  }

  lemma ExtendedViaIf<V>(n: Node<V>, e: Edge<V>, s: string)
    requires Labels(n.edges) && e in n.edges && s != [] && e.text[0] == s[0]
    requires s <= e.text || (e.text <= s && Extended(e.child, s[|e.text|..]))
    ensures Extended(n, s)
  {
    if s <= e.text {
      ExtendedEmpty(e.child);
      ExtendedWithin(n, e, s, []);
    } else {
      var q :| q in Paths(e.child) && s[|e.text|..] <= q;
      ExtendedWithin(n, e, s, q);
    }
  }

  lemma ExtendedWithin<V>(n: Node<V>, e: Edge<V>, s: string, q: string)
    requires Labels(n.edges) && e in n.edges && s != [] && e.text[0] == s[0]
    requires q in Paths(e.child)
    requires s <= e.text || (e.text <= s && s[|e.text|..] <= q)
    ensures Extended(n, s)
  {
    var p := e.text + q;
    assert p[|e.text|..] == q;
    PathsVia(n, e, p);
    assert s <= p;
  }

  /** A non-empty `s` whose first symbol starts no edge is not spelled from `n`. */
  lemma ExtendedNone<V>(n: Node<V>, s: string)
    requires Labels(n.edges) && s != []
    requires forall e :: e in n.edges ==> e.text[0] != s[0]
    ensures !Extended(n, s)
  {
    if Extended(n, s) {
      var p :| p in Paths(n) && s <= p;
      SlotsNone(n, p);
    }
  }

  /**
   * The index of the first edge whose label starts with `c`; under `Labels` it is the only such
   * edge, the one `__setitem__` either descends into or splits.
   */
  function Lead<V>(es: seq<Edge<V>>, c: char): (r: Option<nat>)
    ensures r.Some? ==> r.value < |es| && es[r.value].text != [] && es[r.value].text[0] == c
    ensures r.None? ==> forall i :: 0 <= i < |es| ==> es[i].text == [] || es[i].text[0] != c
  {
    LeadFrom(es, c, 0)
  }

  /** The scan behind `Lead`, from position `k` on. */
  function LeadFrom<V>(es: seq<Edge<V>>, c: char, k: nat): (r: Option<nat>)
    requires k <= |es|
    ensures r.Some? ==> k <= r.value < |es| && es[r.value].text != [] && es[r.value].text[0] == c
    ensures r.None? ==> forall i :: k <= i < |es| ==> es[i].text == [] || es[i].text[0] != c
    decreases |es| - k
  {
    if k == |es| then None
    else if es[k].text != [] && es[k].text[0] == c then Some(k)
    else LeadFrom(es, c, k + 1)
  }

  lemma LeadUnique<V>(es: seq<Edge<V>>, i: nat, c: char)
    requires Labels(es) && i < |es| && es[i].text[0] == c
    ensures Lead(es, c) == Some(i)
  {
  }

  /**
   * A non-empty path leaves the node through the edge `Lead` picks for its first symbol, and only
   * when that edge's whole label is a prefix of it.
   */
  lemma StoredLead<V>(n: Node<V>, k: string)
    requires Labels(n.edges) && k != []
    ensures Stored(n, k) == match Lead(n.edges, k[0])
      case None => None
      case Some(i) => if n.edges[i].text <= k then Stored(n.edges[i].child, k[|n.edges[i].text|..]) else None
    ensures k in Paths(n) <==> match Lead(n.edges, k[0])
      case None => false
      case Some(i) => n.edges[i].text <= k && k[|n.edges[i].text|..] in Paths(n.edges[i].child)
  {
    match Lead(n.edges, k[0])
    case None =>
      SlotsNone(n, k);
    case Some(i) =>
      SlotsVia(n, n.edges[i], k);
  }

  /**
   * Two nodes whose edge lists hold the same edges for the first symbol of `k` agree on `k`: the
   * other edges play no part in it.
   */
  lemma StoredAgree<V>(n1: Node<V>, n2: Node<V>, k: string)
    requires Labels(n1.edges) && Labels(n2.edges) && k != []
    requires forall e :: e in n1.edges && e.text[0] == k[0] ==> e in n2.edges
    requires forall e :: e in n2.edges && e.text[0] == k[0] ==> e in n1.edges
    ensures Stored(n1, k) == Stored(n2, k)
    ensures k in Paths(n1) <==> k in Paths(n2)
  {
    StoredLead(n1, k);
    StoredLead(n2, k);
    match Lead(n1.edges, k[0])
    case None =>
      if Lead(n2.edges, k[0]).Some? {
        assert n2.edges[Lead(n2.edges, k[0]).value] in n2.edges;
      }
    case Some(i) =>
      assert n1.edges[i] in n1.edges;
      var j :| 0 <= j < |n2.edges| && n2.edges[j] == n1.edges[i];
      LeadUnique(n2.edges, j, k[0]);
  }

  /** When `_find` finds no edge, no path of the branch runs further along `s`. */
  lemma StepMisses<V>(n: Node<V>, s: string, idx: nat)
    requires Labels(n.edges) && idx <= |s|
    requires forall e :: e in n.edges ==> !StartsWith(s, e.text, idx)
    ensures forall j :: idx < j <= |s| ==> s[idx..j] !in Slots(n)
  {
    forall j | idx < j <= |s| ensures s[idx..j] !in Slots(n) {
      var k := s[idx..j];
      StoredLead(n, k);
      match Lead(n.edges, k[0])
      case None =>
      case Some(i) =>
        assert n.edges[i] in n.edges;
    }
  }

  /**
   * A walk that has spelled `p` from `root` stands at `node`: what lies below `root` behind `p`
   * is what lies below `node`, slot for slot and path for path.
   */
  ghost predicate Reached<V>(root: Node<V>, node: Node<V>, p: string)
  {
    forall q {:trigger p + q} ::
      Stored(root, p + q) == Stored(node, q) && (p + q in Paths(root) <==> q in Paths(node))
  }

  lemma ReachedRoot<V>(root: Node<V>)
    ensures Reached(root, root, [])
  {
    forall q ensures Stored(root, [] + q) == Stored(root, q) && ([] + q in Paths(root) <==> q in Paths(root)) {
      assert [] + q == q;
    }
  }

  /** Following an edge extends the spelled path by its label. */
  lemma ReachedStep<V>(root: Node<V>, node: Node<V>, p: string, e: Edge<V>)
    requires Reached(root, node, p) && Labels(node.edges) && e in node.edges
    ensures Reached(root, e.child, p + e.text)
  {
    var t := e.text;
    forall q ensures Stored(root, (p + t) + q) == Stored(e.child, q)
      && ((p + t) + q in Paths(root) <==> q in Paths(e.child))
    {
      assert (p + t) + q == p + (t + q);
      var k := t + q;
      assert k[|t|..] == q && k[0] == t[0];
      SlotsVia(node, e, k);
    }
  }

  /** What lies below the reached node is what lies below `root` behind `p`. */
  lemma ReachedStored<V>(root: Node<V>, node: Node<V>, p: string, q: string)
    requires Reached(root, node, p)
    ensures Stored(root, p + q) == Stored(node, q)
    ensures p + q in Paths(root) <==> q in Paths(node)
  {
  }

  /**
   * The scan `for edge in node._edges: if accept(edge): break` - the index of the first label
   * `accept` admits, in insertion order, or `None` when the loop runs out.
   */
  method FirstEdge<V>(es: seq<Edge<V>>, accept: string -> bool) returns (r: Option<nat>)
    ensures r.Some? ==> r.value < |es| && accept(es[r.value].text)
    ensures r.Some? ==> forall j :: 0 <= j < r.value ==> !accept(es[j].text)
    ensures r.None? ==> forall j :: 0 <= j < |es| ==> !accept(es[j].text)
  {
    for i := 0 to |es|
      invariant forall j :: 0 <= j < i ==> !accept(es[j].text)
    {
      if accept(es[i].text) {
        return Some(i);
      }
    }
    return None;
  }

  /**
   * `_find`: the position of the first edge whose label occurs in `path` at `offset` (the source
   * returns the child behind it) and the offset just past that label; `None` and the unchanged
   * offset when no label occurs there.
   */
  method Find<V>(n: Node<V>, path: string, offset: nat) returns (hit: Option<nat>, idx: nat)
    ensures hit.None? ==> idx == offset
    ensures hit.None? ==> forall e :: e in n.edges ==> !StartsWith(path, e.text, offset)
    ensures hit.Some? ==> hit.value < |n.edges| && StartsWith(path, n.edges[hit.value].text, offset)
    ensures hit.Some? ==> forall j :: 0 <= j < hit.value ==> !StartsWith(path, n.edges[j].text, offset)
    ensures hit.Some? ==> idx == offset + |n.edges[hit.value].text|
  {
    hit := FirstEdge(n.edges, t => StartsWith(path, t, offset));
    if hit.None? {
      return None, offset;
    }
    return hit, offset + |n.edges[hit.value].text|;
  }

  /**
   * The edge scan of `isPrefix`: the first label that `s` spells from `offset` once the label is
   * cut to the length left of `s`, in insertion order.
   */
  method Accepted<V>(n: Node<V>, s: string, offset: nat) returns (hit: Option<nat>)
    requires offset <= |s|
    ensures hit.Some? ==> hit.value < |n.edges| && StartsWith(s, Cut(n.edges[hit.value].text, |s| - offset), offset)
    ensures hit.Some? ==> forall j :: 0 <= j < hit.value ==> !StartsWith(s, Cut(n.edges[j].text, |s| - offset), offset)
    ensures hit.None? ==> forall e :: e in n.edges ==> !StartsWith(s, Cut(e.text, |s| - offset), offset)
  {
    var left := |s| - offset;
    var i := 0;
    while i < |n.edges|
      invariant i <= |n.edges|
      invariant forall j :: 0 <= j < i ==> !StartsWith(s, Cut(n.edges[j].text, left), offset)
    {
      if StartsWith(s, Cut(n.edges[i].text, left), offset) {
        return Some(i);
      }
      i := i + 1;
    }
    forall e | e in n.edges ensures !StartsWith(s, Cut(e.text, left), offset) {
      var j :| 0 <= j < |n.edges| && n.edges[j] == e;
    }
    return None;
  }

  /** `_next`: the same scan as `_find`, but a missing edge raises `KeyError(path)`. */
  method Next<V>(n: Node<V>, path: string, offset: nat) returns (r: Result<(nat, nat)>)
    ensures r.KeyError? ==> r.key == path
    ensures r.KeyError? ==> forall e :: e in n.edges ==> !StartsWith(path, e.text, offset)
    ensures r.Ok? ==> r.value.0 < |n.edges| && StartsWith(path, n.edges[r.value.0].text, offset)
    ensures r.Ok? ==> forall j :: 0 <= j < r.value.0 ==> !StartsWith(path, n.edges[j].text, offset)
    ensures r.Ok? ==> r.value.1 == offset + |n.edges[r.value.0].text|
  {
    var hit, idx := Find(n, path, offset);
    if hit.None? {
      return KeyError(path);
    }
    return Ok((hit.value, idx));
  }

  /** A walk that has spelled `s[..idx]` is at a path, and the node there holds that path's slot. */
  lemma ReachedHere<V>(root: Node<V>, node: Node<V>, s: string, idx: nat)
    requires idx <= |s| && Reached(root, node, s[..idx])
    ensures s[..idx] in Paths(root) && Stored(root, s[..idx]) == node.value
  {
    SlotsRoot(node);
    ReachedStored(root, node, s[..idx], []);
    assert s[..idx] + [] == s[..idx];
  }

  /** Following the label `_find` returns moves the walk to the end of that label. */
  lemma ReachedFind<V>(root: Node<V>, node: Node<V>, s: string, idx: nat, i: nat)
    requires idx <= |s| && Reached(root, node, s[..idx]) && Labels(node.edges)
    requires i < |node.edges| && StartsWith(s, node.edges[i].text, idx)
    ensures Reached(root, node.edges[i].child, s[..idx + |node.edges[i].text|])
    ensures forall j :: idx < j < idx + |node.edges[i].text| ==> s[..j] !in Paths(root)
  {
    var t := node.edges[i].text;
    assert s[..idx] + t == s[..idx + |t|];
    ReachedStep(root, node, s[..idx], node.edges[i]);
    forall j | idx < j < idx + |t| ensures s[..j] !in Paths(root) {
      ReachedInside(root, node, s, idx, i, j);
    }
  }

  lemma ReachedInside<V>(root: Node<V>, node: Node<V>, s: string, idx: nat, i: nat, j: nat)
    requires idx <= |s| && Reached(root, node, s[..idx]) && Labels(node.edges)
    requires i < |node.edges| && StartsWith(s, node.edges[i].text, idx)
    requires idx < j < idx + |node.edges[i].text|
    ensures s[..j] !in Paths(root)
  {
    SkipOne(node, s, idx, i, j);
    ReachedStored(root, node, s[..idx], s[idx..j]);
    Slices(s, idx, j);
  }

  lemma SkipOne<V>(n: Node<V>, s: string, idx: nat, i: nat, j: nat)
    requires Labels(n.edges) && i < |n.edges| && StartsWith(s, n.edges[i].text, idx)
    requires idx < j < idx + |n.edges[i].text|
    ensures s[idx..j] !in Paths(n)
  {
    var k := s[idx..j];
    assert k[0] == n.edges[i].text[0];
    SlotsVia(n, n.edges[i], k);
  }

  lemma Slices(s: string, i: nat, j: nat)
    requires i <= j <= |s|
    ensures s[..i] + s[i..j] == s[..j]
  {
  }

  /** When `_find` finds no edge, no path of the whole trie runs further along `s`. */
  lemma ReachedMisses<V>(root: Node<V>, node: Node<V>, s: string, idx: nat)
    requires idx <= |s| && Reached(root, node, s[..idx]) && Labels(node.edges)
    requires forall e :: e in node.edges ==> !StartsWith(s, e.text, idx)
    ensures forall j :: idx < j <= |s| ==> s[..j] !in Paths(root)
  {
    StepMisses(node, s, idx);
    forall j | idx < j <= |s| ensures s[..j] !in Paths(root) {
      ReachedStored(root, node, s[..idx], s[idx..j]);
      assert s[..idx] + s[idx..j] == s[..j];
    }
  }

  /** A walk along `s` that finds no edge before the end of `s` shows that `s` is not stored. */
  lemma WalkMiss<V>(root: Node<V>, node: Node<V>, s: string, idx: nat)
    requires idx < |s| && Reached(root, node, s[..idx]) && Labels(node.edges)
    requires forall e :: e in node.edges ==> !StartsWith(s, e.text, idx)
    ensures s !in Contents(root)
  {
    ReachedMisses(root, node, s, idx);
    assert s[..|s|] == s;
    Unpathed(root, s);
  }

  /** A walk that has spelled all of `s` stands at the node holding the slot of `s`. */
  lemma WalkEnd<V>(root: Node<V>, node: Node<V>, s: string, idx: nat)
    requires idx == |s| && Reached(root, node, s[..idx])
    ensures Stored(root, s) == node.value
  {
    ReachedHere(root, node, s, idx);
    assert s[..idx] == s;
  }

  /** The label `isPrefix` compares: `edge[:len_left]` when fewer symbols are left, else `edge`. */
  function Cut(t: string, left: nat): (r: string)
    ensures r <= t && |r| == if left < |t| then left else |t|
  {
    if left < |t| then t[..left] else t
  }

  /**
   * An edge `isPrefix` accepts: when the label is cut, the rest of `s` ends inside it; otherwise
   * the walk goes on below it.
   */
  lemma PrefixStep<V>(n: Node<V>, s: string, idx: nat, i: nat)
    requires Labels(n.edges) && idx < |s| && i < |n.edges|
    requires StartsWith(s, Cut(n.edges[i].text, |s| - idx), idx)
    ensures |s| < idx + |n.edges[i].text| ==> Extended(n, s[idx..])
    ensures idx + |n.edges[i].text| <= |s| ==>
      (Extended(n, s[idx..]) <==> Extended(n.edges[i].child, s[idx + |n.edges[i].text|..]))
  {
    var e := n.edges[i];
    var rest := s[idx..];
    assert rest[..|Cut(e.text, |s| - idx)|] == Cut(e.text, |s| - idx);
    assert e.text[0] == rest[0];
    ExtendedVia(n, e, rest);
    if |e.text| <= |s| - idx {
      assert rest[..|e.text|] == e.text;
      assert rest[|e.text|..] == s[idx + |e.text|..];
      ExtendedEmpty(e.child);
      if rest <= e.text {
        assert rest[|e.text|..] == [];
      }
    }
  }

  /** When `isPrefix` accepts no edge, the rest of `s` runs off every path. */
  lemma PrefixNone<V>(n: Node<V>, s: string, idx: nat)
    requires Labels(n.edges) && idx < |s|
    requires forall e :: e in n.edges ==> !StartsWith(s, Cut(e.text, |s| - idx), idx)
    ensures !Extended(n, s[idx..])
  {
    var rest := s[idx..];
    match Lead(n.edges, rest[0])
    case None =>
      forall e | e in n.edges ensures e.text[0] != rest[0] {
        var i :| 0 <= i < |n.edges| && n.edges[i] == e;
      }
      ExtendedNone(n, rest);
    case Some(i) =>
      var e := n.edges[i];
      assert e in n.edges;
      ExtendedVia(n, e, rest);
      assert !StartsWith(s, Cut(e.text, |s| - idx), idx);
  }
}
